/**
 * main(): group the listing, walk the families in insertion order, and call
 * upscale_image for each family that asks for one. The object store and the
 * codec answer each call through `probe`; an exception raised by a call is
 * not caught in main(), so it ends the run.
 */
module Batch {
  import opened Filenames
  import opened Grouping
  import opened Selection
  import opened Upscale

  /** One call of upscale_image: its two arguments. */
  datatype Request = Request(source: string, baseName: string)

  /** One call of upscale_image made by the run, and how it ended. */
  datatype Attempt = Attempt(request: Request, decision: Decision)

  /** The upscale_image call a family with these variants asks for, if any. */
  function RequestFor(base: string, variants: seq<string>): seq<Request>
  {
    var choice := ChooseSource(base, variants);
    if choice.Upscale? then [Request(choice.source, choice.name)] else []
  }

  /** The upscale_image call family `b` of the listing asks for, if any. */
  function FamilyRequest(keys: seq<string>, b: string): seq<Request>
  {
    RequestFor(b, Family(keys, b))
  }

  /** The upscale_image calls that families `bases` ask for, in order. */
  function RequestsOf(keys: seq<string>, bases: seq<string>): seq<Request>
  {
    if bases == [] then []
    else RequestsOf(keys, bases[..|bases| - 1]) + FamilyRequest(keys, bases[|bases| - 1])
  }

  /** The upscale_image calls a listing asks for, family by family in first-seen order. */
  function Requests(keys: seq<string>): seq<Request>
  {
    RequestsOf(keys, Bases(keys))
  }

  /**
   * The call of upscale_image made for a request, as the code stands
   * (`UpscaleDecisionAsWritten`), with the outside world answering through
   * `probe`.
   */
  function Perform(request: Request, probe: Request -> Probe): (a: Attempt)
    ensures a.request == request
    ensures a.decision.Upload? ==> HasDirectory(request.baseName)
    ensures !HasDirectory(request.baseName) && UpscaleDecision(probe(request), request.baseName, DefaultFactor).Upload?
      ==> a.decision == Raised
  {
    Attempt(request, UpscaleDecisionAsWritten(probe(request), request.baseName, DefaultFactor))
  }

  /** The calls made for `requests`, in order, stopping after the first one that raises. */
  function Outcomes(requests: seq<Request>, probe: Request -> Probe): seq<Attempt>
  {
    if requests == [] then []
    else
      var earlier := Outcomes(requests[..|requests| - 1], probe);
      if Stopped(earlier) then earlier else earlier + [Perform(requests[|requests| - 1], probe)]
  }

  /** The last call made raised, so the run is over. */
  predicate Stopped(log: seq<Attempt>)
  {
    |log| > 0 && log[|log| - 1].decision.Raised?
  }

  /**
   * The calls made for `requests` are the first of them, each with the
   * outcome `probe` gives it; every one of them but the last returned, and
   * only a raising call leaves requests unserved.
   */
  lemma {:induction false} OutcomesSpec(requests: seq<Request>, probe: Request -> Probe)
    ensures |Outcomes(requests, probe)| <= |requests|
    ensures forall i | 0 <= i < |Outcomes(requests, probe)| ::
      Outcomes(requests, probe)[i] == Perform(requests[i], probe)
    ensures forall i | 0 <= i < |Outcomes(requests, probe)| - 1 :: !Outcomes(requests, probe)[i].decision.Raised?
    ensures |Outcomes(requests, probe)| < |requests| ==> Stopped(Outcomes(requests, probe))
  {
    if requests != [] {
      var init := requests[..|requests| - 1];
      OutcomesSpec(init, probe);
      var earlier := Outcomes(init, probe);
      assert forall i | 0 <= i < |init| :: init[i] == requests[i];
    }
  }

  /** Once a call has raised, later requests change nothing. */
  lemma {:induction false} OutcomesStopped(requests: seq<Request>, more: seq<Request>, probe: Request -> Probe)
    requires Stopped(Outcomes(requests, probe))
    ensures Outcomes(requests + more, probe) == Outcomes(requests, probe)
  {
    if more == [] {
      assert requests + more == requests;
    } else {
      var init := more[..|more| - 1];
      assert (requests + more)[..|requests + more| - 1] == requests + init;
      OutcomesStopped(requests, init, probe);
    }
  }

  /**
   * The family loop of main(): for each family in insertion order, call
   * upscale_image when the family asks for it. An exception raised by a call
   * is not caught, so it ends the loop.
   */
  method UpscaleFamilies(keys: seq<string>, order: seq<string>, families: map<string, seq<string>>,
                         probe: Request -> Probe) returns (log: seq<Attempt>)
    requires forall b | b in order :: b in families && families[b] == Family(keys, b)
    ensures log == Outcomes(RequestsOf(keys, order), probe)
  {
    hide FamilyRequest;
    log := [];
    var i := 0;
    var raised := false;
    while i < |order| && !raised
      invariant 0 <= i <= |order|
      invariant log == Outcomes(RequestsOf(keys, order[..i]), probe)
      invariant raised == Stopped(log)
    {
      log, raised := VisitFamily(keys, order, i, families[order[i]], log, probe);
      i := i + 1;
    }
    assert order[..|order|] == order;
    if i < |order| {
      RequestsAppend(keys, order[..i], order[i..]);
      assert order[..i] + order[i..] == order;
      OutcomesStopped(RequestsOf(keys, order[..i]), RequestsOf(keys, order[i..]), probe);
    }
  }

  /** One turn of the family loop: call upscale_image if family `order[i]` asks for it. */
  method VisitFamily(keys: seq<string>, order: seq<string>, i: nat, variants: seq<string>,
                     log: seq<Attempt>, probe: Request -> Probe) returns (log': seq<Attempt>, raised: bool)
    requires i < |order| && variants == Family(keys, order[i])
    requires log == Outcomes(RequestsOf(keys, order[..i]), probe) && !Stopped(log)
    ensures log' == Outcomes(RequestsOf(keys, order[..i + 1]), probe)
    ensures raised == Stopped(log')
  {
    hide ChooseSource;
    var wanted := RequestFor(order[i], variants);
    RunStep(keys, order, i, probe);
    log', raised := log, false;
    if wanted != [] {
      var attempt := Perform(wanted[0], probe);
      log' := log + [attempt];
      raised := attempt.decision.Raised?;
    }
  }

  /**
   * main() from `images_data = {}` on: group the listing, then run the family
   * loop. The calls made are those the listing asks for, in order, until one
   * raises.
   */
  method RunListing(keys: seq<string>, probe: Request -> Probe) returns (log: seq<Attempt>)
    ensures log == Outcomes(Requests(keys), probe)
  {
    var order, families := GroupImages(keys);
    log := UpscaleFamilies(keys, order, families, probe);
  }

  /** One more family adds its request, if any, to the calls made, unless the run has stopped. */
  lemma RunStep(keys: seq<string>, order: seq<string>, i: nat, probe: Request -> Probe)
    requires i < |order|
    requires !Stopped(Outcomes(RequestsOf(keys, order[..i]), probe))
    ensures var log := Outcomes(RequestsOf(keys, order[..i]), probe);
      var wanted := FamilyRequest(keys, order[i]);
      Outcomes(RequestsOf(keys, order[..i + 1]), probe)
        == if wanted == [] then log else log + [Perform(wanted[0], probe)]
  {
    hide ChooseSource;
    var done := RequestsOf(keys, order[..i]);
    var wanted := FamilyRequest(keys, order[i]);
    assert order[..i + 1][..i] == order[..i];
    assert RequestsOf(keys, order[..i + 1]) == done + wanted;
    if wanted != [] {
      assert (done + wanted)[..|done|] == done;
    } else {
      assert done + wanted == done;
    }
  }

  /** The requests of consecutive runs of families follow each other. */
  lemma {:induction false} RequestsAppend(keys: seq<string>, bases1: seq<string>, bases2: seq<string>)
    ensures RequestsOf(keys, bases1 + bases2) == RequestsOf(keys, bases1) + RequestsOf(keys, bases2)
  {
    if bases2 == [] {
      assert bases1 + bases2 == bases1;
    } else {
      var init := bases2[..|bases2| - 1];
      assert (bases1 + bases2)[..|bases1 + bases2| - 1] == bases1 + init;
      RequestsAppend(keys, bases1, init);
    }
  }

  /**
   * Every requested upscale reads a listed image key whose area is non-zero
   * and maximal in its family (the first such), and writes to the base name
   * `base + extension of the source`, which is not itself among the family's
   * variants.
   */
  lemma {:induction false} RequestsWellFormed(keys: seq<string>, bases: seq<string>)
    ensures forall r | r in RequestsOf(keys, bases) ::
      var base := Basename(r.source);
      && r.source in keys && IsImageKey(r.source)
      && ImageArea(r.source) != 0
      && IsFirstLargest(Family(keys, base), r.source)
      && r.baseName == BaseImageName(base, r.source)
      && r.baseName !in Family(keys, base)
  {
    if bases != [] {
      var init := bases[..|bases| - 1];
      RequestsWellFormed(keys, init);
      var b := bases[|bases| - 1];
      var fam := Family(keys, b);
      if ChooseSource(b, fam).Upscale? {
        ChooseFirstLargest(b, fam);
        ChooseUpscale(b, fam);
        FamilyMembers(keys, b);
        WithBaseKeepsFamily(keys, b);
      }
    }
  }

  /** Every family that asks for an upscale gets exactly its request in the list. */
  lemma {:induction false} RequestsComplete(keys: seq<string>, bases: seq<string>, b: string)
    requires b in bases
    ensures forall r | r in FamilyRequest(keys, b) :: r in RequestsOf(keys, bases)
  {
    var init := bases[..|bases| - 1];
    if bases[|bases| - 1] != b {
      assert bases == init + [bases[|bases| - 1]];
      RequestsComplete(keys, init, b);
    }
  }

  /** A family asks for at most one call, and only for one of its own variants. */
  lemma FamilyRequestSource(keys: seq<string>, b: string)
    ensures |FamilyRequest(keys, b)| <= 1
    ensures forall r | r in FamilyRequest(keys, b) :: Basename(r.source) == b
  {
    var fam := Family(keys, b);
    if ChooseSource(b, fam).Upscale? {
      ChooseFirstLargest(b, fam);
    }
  }

  /** Every call reads a source of one of the families visited. */
  lemma {:induction false} RequestsFromBases(keys: seq<string>, bases: seq<string>)
    ensures forall r | r in RequestsOf(keys, bases) :: Basename(r.source) in bases
  {
    if bases != [] {
      var init := bases[..|bases| - 1];
      RequestsFromBases(keys, init);
      FamilyRequestSource(keys, bases[|bases| - 1]);
    }
  }

  /** Over distinct family names, no two calls read the same source. */
  lemma {:induction false} RequestsDistinct(keys: seq<string>, bases: seq<string>)
    requires forall i, j | 0 <= i < j < |bases| :: bases[i] != bases[j]
    ensures forall i, j | 0 <= i < j < |RequestsOf(keys, bases)| ::
      RequestsOf(keys, bases)[i].source != RequestsOf(keys, bases)[j].source
  {
    hide ChooseSource;
    if bases != [] {
      var init := bases[..|bases| - 1];
      var b := bases[|bases| - 1];
      RequestsDistinct(keys, init);
      RequestsFromBases(keys, init);
      FamilyRequestSource(keys, b);
      var done := RequestsOf(keys, init);
      var all := RequestsOf(keys, bases);
      assert all == done + FamilyRequest(keys, b);
      forall i, j | 0 <= i < j < |all| ensures all[i].source != all[j].source {
        if j >= |done| {
          assert i < |done| && all[i] == done[i] && all[j] in FamilyRequest(keys, b);
          assert b !in init;
        }
      }
    }
  }

  /** No call of a run uploads to a base name without a directory part. */
  lemma NoTopLevelUpload(requests: seq<Request>, probe: Request -> Probe)
    ensures forall a | a in Outcomes(requests, probe) :: a.decision.Upload? ==> HasDirectory(a.request.baseName)
  {
    OutcomesSpec(requests, probe);
  }

  /**
   * A call that would upload to a base name without a directory part raises
   * in `os.makedirs('')`, and the run ends with it.
   */
  lemma TopLevelUploadEndsRun(requests: seq<Request>, probe: Request -> Probe, i: nat)
    requires i < |requests| && i < |Outcomes(requests, probe)|
    requires !HasDirectory(requests[i].baseName)
    requires UpscaleDecision(probe(requests[i]), requests[i].baseName, DefaultFactor).Upload?
    ensures |Outcomes(requests, probe)| == i + 1
    ensures Outcomes(requests, probe)[i].decision == Raised
  {
    OutcomesSpec(requests, probe);
    assert Outcomes(requests, probe)[i] == Perform(requests[i], probe);
  }
}
