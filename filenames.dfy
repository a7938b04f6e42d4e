/**
 * Filename conventions of the image fixer: the base name of a size variant,
 * the pixel area encoded in its `-<W>x<H>` suffix, and the extension that
 * `os.path.splitext` reports for it.
 */
module Filenames {

  /** Index of the last occurrence of `c` in `s`, or -1 when there is none. */
  function LastIndexOf(s: string, c: char): (r: int)
    ensures -1 <= r < |s|
    ensures r >= 0 ==> s[r] == c
    ensures forall j | r < j < |s| :: s[j] != c
  {
    if |s| == 0 then -1
    else if s[|s| - 1] == c then |s| - 1
    else LastIndexOf(s[..|s| - 1], c)
  }

  /** The last occurrence of `c` in `a + [c] + t` is the separator itself when `t` has none. */
  lemma LastIndexOfSeparator(a: string, c: char, t: string)
    requires c !in t
    ensures LastIndexOf(a + [c] + t, c) == |a|
  {
    assert (a + [c] + t)[|a|] == c;
  }

  /** `get_basename`: everything before the last '-', or the whole name when it has none. */
  function Basename(f: string): (b: string)
    ensures b <= f
    ensures '-' !in f ==> b == f
    ensures '-' in f ==> |b| < |f| && f[|b|] == '-' && '-' !in f[|b| + 1..]
  {
    var k := LastIndexOf(f, '-');
    if k < 0 then f else f[..k]
  }

  /** `f.rsplit('-', 1)[-1]`: everything after the last '-', or the whole name. */
  function LastSegment(f: string): (s: string)
    ensures HasSuffix(f, s) && '-' !in s
    ensures '-' !in f ==> s == f
  {
    var k := LastIndexOf(f, '-');
    if k < 0 then f else f[k + 1..]
  }

  /** Splitting at the last '-' loses nothing: base, separator and last segment rebuild the name. */
  lemma BasenameRoundTrip(f: string)
    ensures '-' in f ==> Basename(f) + "-" + LastSegment(f) == f
    ensures '-' !in f ==> Basename(f) == f && LastSegment(f) == f
    ensures '-' !in LastSegment(f)
  {
    var k := LastIndexOf(f, '-');
    if k >= 0 {
      assert f == f[..k] + "-" + f[k + 1..];
    } else {
      assert '-' !in f;
    }
  }

  /** A name `b + "-" + s` whose last segment `s` has no '-' splits back into `b` and `s`. */
  lemma BasenameOfSuffixed(b: string, s: string)
    requires '-' !in s
    ensures Basename(b + "-" + s) == b
    ensures LastSegment(b + "-" + s) == s
  {
    LastIndexOfSeparator(b, '-', s);
    var f := b + "-" + s;
    assert f[..|b|] == b;
    assert f[|b| + 1..] == s;
  }

  /**
   * Appending anything to `b` that does not start with '-' yields a name whose
   * base name is not `b`: the only way to extend a name and keep its base is
   * to add a new `-<suffix>`.
   */
  lemma BasenameOfExtended(b: string, e: string)
    requires Basename(b + e) == b
    ensures e == [] || e[0] == '-'
  {
  }

  /** ASCII lower-casing of one character (`str.lower` on the characters that matter here). */
  function LowerChar(c: char): char
  {
    if 'A' <= c <= 'Z' then (c as int + 32) as char else c
  }

  function Lower(s: string): string
  {
    seq(|s|, i requires 0 <= i < |s| => LowerChar(s[i]))
  }

  /** `t in s` for strings: `t` occurs as a contiguous substring of `s`. */
  predicate Contains(s: string, t: string)
  {
    exists i | 0 <= i <= |s| - |t| :: OccursAt(s, t, i)
  }

  predicate OccursAt(s: string, t: string, i: int)
  {
    0 <= i <= |s| - |t| && s[i..i + |t|] == t
  }

  predicate HasSuffix(s: string, t: string)
  {
    |t| <= |s| && s[|s| - |t|..] == t
  }

  /** The filter of main.py: the lower-cased key mentions `.jpg` or `.jpeg` anywhere. */
  predicate IsImageKey(key: string)
  {
    Contains(Lower(key), ".jpg") || Contains(Lower(key), ".jpeg")
  }

  /** Every name that ends in one of the extensions the size parser strips passes the filter. */
  lemma JpegNameIsImageKey(s: string, ext: string)
    requires ext in JpegExtensions
    ensures IsImageKey(s + ext)
  {
    var low := Lower(s + ext);
    var tail := low[|s|..];
    assert |tail| == |ext|;
    if |ext| == 4 {
      assert tail == ".jpg";
      assert OccursAt(low, ".jpg", |s|);
    } else {
      assert tail == ".jpeg";
      assert OccursAt(low, ".jpeg", |s|);
    }
  }

  /** The four suffixes the size parser removes; the alternation is case-sensitive. */
  const JpegExtensions: seq<string> := [".jpg", ".jpeg", ".JPG", ".JPEG"]

  /** Removes one trailing `.jpg`, `.jpeg`, `.JPG` or `.JPEG`, and nothing else. */
  function StripJpegExtension(s: string): (r: string)
    ensures r <= s
    ensures r == s || s[|r|..] in JpegExtensions
  {
    if HasSuffix(s, ".jpg") || HasSuffix(s, ".JPG") then s[..|s| - 4]
    else if HasSuffix(s, ".jpeg") || HasSuffix(s, ".JPEG") then s[..|s| - 5]
    else s
  }

  /** Concatenation of `parts` with `sep` between neighbours. */
  function Join(parts: seq<string>, sep: char): string
    requires |parts| >= 1
  {
    if |parts| == 1 then parts[0] else parts[0] + [sep] + Join(parts[1..], sep)
  }

  /** Number of occurrences of `c` in `s`. */
  function Count(s: string, c: char): nat
  {
    if |s| == 0 then 0 else (if s[0] == c then 1 else 0) + Count(s[1..], c)
  }

  /** `s.split(sep)`: the maximal `sep`-free pieces between separators, empty pieces included. */
  function Split(s: string, sep: char): (parts: seq<string>)
    ensures |parts| == Count(s, sep) + 1
    ensures forall k | 0 <= k < |parts| :: sep !in parts[k]
  {
    if |s| == 0 then [""]
    else
      var rest := Split(s[1..], sep);
      if s[0] == sep then [""] + rest
      else
        var parts := [[s[0]] + rest[0]] + rest[1..];
        assert forall k | 1 <= k < |parts| :: parts[k] == rest[k];
        parts
  }

  /** Split and Join are inverse: splitting loses no character. */
  lemma {:induction false} SplitJoin(s: string, sep: char)
    ensures Join(Split(s, sep), sep) == s
  {
    if |s| > 0 {
      SplitJoin(s[1..], sep);
      var rest := Split(s[1..], sep);
      if s[0] == sep {
        assert Split(s, sep)[1..] == rest;
      } else {
        var parts := Split(s, sep);
        assert parts[1..] == rest[1..];
        if |rest| == 1 {
          assert s == [s[0]] + s[1..];
        } else {
          assert rest == [rest[0]] + rest[1..];
          assert s == [s[0]] + s[1..];
        }
      }
    }
  }

  /** A separator-free prefix glues onto the first piece. */
  lemma {:induction false} SplitFreePrefix(a: string, t: string, sep: char)
    requires sep !in a
    ensures Split(a + t, sep) == [a + Split(t, sep)[0]] + Split(t, sep)[1..]
  {
    if |a| > 0 {
      SplitFreePrefix(a[1..], t, sep);
      assert (a + t)[1..] == a[1..] + t;
      assert [a[0]] + (a[1..] + Split(t, sep)[0]) == a + Split(t, sep)[0];
    } else {
      assert a + t == t;
      var parts := Split(t, sep);
      assert a + parts[0] == parts[0];
      assert parts == [parts[0]] + parts[1..];
    }
  }

  /** A string with exactly one separator splits into the two sides. */
  lemma SplitOnce(a: string, b: string, sep: char)
    requires sep !in a && sep !in b
    ensures Split(a + [sep] + b, sep) == [a, b]
  {
    SplitFreePrefix(b, [], sep);
    assert b + [] == b;
    assert Split([], sep) == [""];
    assert Split(b, sep) == [b];
    var t := [sep] + b;
    assert t[1..] == b;
    assert Split(t, sep) == [""] + [b];
    assert a + [sep] + b == a + t;
    SplitFreePrefix(a, t, sep);
    assert a + "" == a;
  }

  predicate IsDigit(c: char)
  {
    '0' <= c <= '9'
  }

  /** A non-empty string of ASCII decimal digits: the only form of `int()` input modelled. */
  predicate IsDigits(s: string)
  {
    |s| > 0 && forall i | 0 <= i < |s| :: IsDigit(s[i])
  }

  /** The value of a decimal digit string, most significant digit first. */
  function DigitsValue(s: string): nat
    requires forall i | 0 <= i < |s| :: IsDigit(s[i])
  {
    if |s| == 0 then 0
    else
      assert IsDigit(s[|s| - 1]);
      DigitsValue(s[..|s| - 1]) * 10 + (s[|s| - 1] as int - '0' as int)
  }

  /** Decimal rendering of a natural number, as in the names `cat-300x200.jpg`. */
  function Decimal(n: nat): (s: string)
    ensures IsDigits(s)
    ensures 'x' !in s && '-' !in s
  {
    var d := [('0' as int + n % 10) as char];
    if n < 10 then d else Decimal(n / 10) + d
  }

  /** Parsing the rendering of `n` gives back `n`. */
  lemma {:induction false} DecimalRoundTrip(n: nat)
    ensures DigitsValue(Decimal(n)) == n
  {
    var s := Decimal(n);
    if n >= 10 {
      DecimalRoundTrip(n / 10);
      assert s[..|s| - 1] == Decimal(n / 10);
    }
  }

  /**
   * `get_image_area`: strip a trailing JPEG extension from the last segment,
   * split what is left on 'x' and multiply the two numbers; any other shape is
   * the `ValueError` path and gives 0.
   */
  function ImageArea(name: string): nat
  {
    var parts := Split(StripJpegExtension(LastSegment(name)), 'x');
    if |parts| == 2 && IsDigits(parts[0]) && IsDigits(parts[1])
    then DigitsValue(parts[0]) * DigitsValue(parts[1])
    else 0
  }

  /** Digit strings hold none of the separators the parsers look for. */
  lemma DigitsAreFree(w: string)
    requires IsDigits(w)
    ensures 'x' !in w && '-' !in w && '.' !in w && '/' !in w
  {
    forall i | 0 <= i < |w| ensures w[i] != 'x' && w[i] != '-' && w[i] != '.' && w[i] != '/' {
      assert IsDigit(w[i]);
    }
  }

  lemma StripSizedSegment(s: string, ext: string)
    requires ext in JpegExtensions
    ensures StripJpegExtension(s + ext) == s
  {
    var t := s + ext;
    assert t[|s|..] == ext;
    assert t[..|s|] == s;
    if |ext| == 5 {
      assert t[|t| - 4] == ext[1] != '.';
      assert !HasSuffix(t, ".jpg") && !HasSuffix(t, ".JPG");
    }
  }

  /** A size variant `<base>-<W>x<H><ext>` has area W*H. */
  lemma AreaOfSizedName(base: string, w: string, h: string, ext: string)
    requires IsDigits(w) && IsDigits(h)
    requires ext in JpegExtensions
    ensures ImageArea(base + "-" + w + "x" + h + ext) == DigitsValue(w) * DigitsValue(h)
  {
    DigitsAreFree(w);
    DigitsAreFree(h);
    var dims := w + "x" + h;
    var seg := dims + ext;
    assert '-' !in ext;
    assert '-' !in seg;
    assert base + "-" + w + "x" + h + ext == base + "-" + seg;
    BasenameOfSuffixed(base, seg);
    StripSizedSegment(dims, ext);
    SplitOnce(w, h, 'x');
  }

  /** Rendering `w` and `h` into a variant name and parsing it back gives the area `w*h`. */
  lemma AreaOfDimensions(base: string, w: nat, h: nat, ext: string)
    requires ext in JpegExtensions
    ensures ImageArea(base + "-" + Decimal(w) + "x" + Decimal(h) + ext) == w * h
  {
    AreaOfSizedName(base, Decimal(w), Decimal(h), ext);
    DecimalRoundTrip(w);
    DecimalRoundTrip(h);
  }

  /** A name ending in `.Jpg` keeps its suffix: the strip is case-sensitive. */
  lemma MixedCaseNotStripped(t: string)
    requires |t| >= 4 && t[|t| - 4..] == ".Jpg"
    ensures StripJpegExtension(t) == t
  {
    assert t[|t| - 3] == 'J' && t[|t| - 2] == 'p';
    assert !HasSuffix(t, ".jpg") && !HasSuffix(t, ".JPG");
    assert t[|t| - 4] == '.';
    assert !HasSuffix(t, ".jpeg") && !HasSuffix(t, ".JPEG");
  }

  /** A string without `c` counts no `c`. */
  lemma {:induction false} CountAbsent(s: string, c: char)
    requires c !in s
    ensures Count(s, c) == 0
  {
    if |s| > 0 {
      CountAbsent(s[1..], c);
    }
  }

  /** A last segment without an 'x' is not a size: `split('x')` gives one piece, and the area is 0. */
  lemma NoSeparatorNoArea(name: string)
    requires 'x' !in LastSegment(name)
    ensures ImageArea(name) == 0
  {
    var t := StripJpegExtension(LastSegment(name));
    assert forall k | 0 <= k < |t| :: t[k] == LastSegment(name)[k];
    CountAbsent(t, 'x');
  }

  /** The suffix strip is case-sensitive: `.Jpg` stays, and the name has no area. */
  lemma MixedCaseExtensionHasNoArea(base: string, w: string, h: string)
    requires IsDigits(w) && IsDigits(h)
    ensures ImageArea(base + "-" + w + "x" + h + ".Jpg") == 0
  {
    DigitsAreFree(w);
    DigitsAreFree(h);
    var tail := h + ".Jpg";
    assert 'x' !in ".Jpg" && '-' !in ".Jpg";
    assert 'x' !in tail && '-' !in tail;
    SplitOnce(w, tail, 'x');
    var seg := w + "x" + tail;
    var name := base + "-" + w + "x" + h + ".Jpg";
    assert '-' !in seg;
    assert name == base + "-" + seg;
    BasenameOfSuffixed(base, seg);
    assert seg[|seg| - 4..] == ".Jpg";
    MixedCaseNotStripped(seg);
    assert StripJpegExtension(LastSegment(name)) == seg;
    assert !IsDigits(Split(seg, 'x')[1]) by {
      assert !IsDigit(tail[|tail| - 1]);
    }
  }

  /**
   * `os.path.splitext(p)[1]` for POSIX paths: from the last '.' of the last
   * '/'-component, unless that '.' is preceded in the component by dots only
   * (a hidden file such as `.jpg`), in which case it is empty.
   */
  function Extension(p: string): (e: string)
    ensures HasSuffix(p, e)
    ensures e == [] || (e[0] == '.' && '/' !in e && '.' !in e[1..])
    ensures (forall i | LastIndexOf(p, '/') < i < LastIndexOf(p, '.') :: p[i] == '.') ==> e == []
  {
    var s := LastIndexOf(p, '/');
    var d := LastIndexOf(p, '.');
    if d > s && exists i | s + 1 <= i < d :: p[i] != '.' then p[d..] else []
  }

  /**
   * The extension starts at the dot `d` when no dot follows it and some
   * character `i` before it, in the same '/'-component, is not a dot.
   */
  lemma ExtensionAt(p: string, i: nat, d: nat)
    requires i < d < |p| && p[d] == '.' && p[i] != '.'
    requires forall j | d < j < |p| :: p[j] != '.'
    requires forall j | i <= j < |p| :: p[j] != '/'
    ensures Extension(p) == p[d..]
  {
    assert LastIndexOf(p, '.') == d;
    assert LastIndexOf(p, '/') < i;
  }

  /** The extension of a size variant `<base>-<W>x<H><ext>` is `ext`. */
  lemma ExtensionOfSizedName(base: string, w: string, h: string, ext: string)
    requires IsDigits(w) && IsDigits(h)
    requires ext in JpegExtensions
    ensures Extension(base + "-" + w + "x" + h + ext) == ext
  {
    DigitsAreFree(w);
    DigitsAreFree(h);
    var head := base + "-" + w + "x" + h;
    var rest := "-" + w + "x" + h + ext;
    var p := head + ext;
    assert p == base + rest;
    assert ext[0] == '.' && '.' !in ext[1..] && '/' !in ext;
    assert '/' !in rest;
    assert forall j | |base| <= j < |p| :: p[j] == rest[j - |base|];
    assert forall j | |head| < j < |p| :: p[j] == ext[1..][j - |head| - 1];
    ExtensionAt(p, |base|, |head|);
    assert p[|head|..] == ext;
  }
}
