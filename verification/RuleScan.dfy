/**
 First-match scanning over a list of rules, reduced to the truth values that decide it:
 which rules match now, which would match with addresses known, and which ask for one.
 */
module RuleScan {
  import opened Basics

  datatype ActionLookup = Action(index: nat) | NeedResolve(index: nat) | NoMatch

  /** The first matching rule at or after `from`. */
  function First(now: seq<bool>, from: nat): (r: Option<nat>)
    ensures r.Some? ==> from <= r.value < |now| && now[r.value]
    ensures forall j :: from <= j < (if r.Some? then r.value else |now|) ==> !now[j]
    decreases |now| - from
  {
    if from >= |now| then None else if now[from] then Some(from) else First(now, from + 1)
  }

  /** The first rule at or after `from` that matches or asks for an address. */
  function Scan(now: seq<bool>, wants: seq<bool>, from: nat): (r: ActionLookup)
    requires |now| == |wants|
    ensures !r.NoMatch? ==> from <= r.index < |now|
    ensures forall j :: from <= j < (if r.NoMatch? then |now| else r.index) ==> !now[j] && !wants[j]
    ensures r.Action? ==> now[r.index]
    ensures r.NeedResolve? ==> !now[r.index] && wants[r.index]
    decreases |now| - from
  {
    if from >= |now| then NoMatch
    else if now[from] then Action(from)
    else if wants[from] then NeedResolve(from)
    else Scan(now, wants, from + 1)
  }

  /** One rule is classified correctly: taken now, asked about, or rightly skipped. */
  predicate Sound(now: bool, later: bool, wants: bool) {
    if now then later else later ==> wants
  }

  /** The rule selected by a scan that switches to `later` at the rule that asks. */
  function ScanThenFirst(now: seq<bool>, wants: seq<bool>, later: seq<bool>, from: nat): Option<nat>
    requires |now| == |wants| == |later|
  {
    match Scan(now, wants, from)
    case Action(i) => Some(i)
    case NeedResolve(i) => First(later, i)
    case NoMatch => None
  }

  /** Skipping rules that do not match changes nothing. */
  lemma FirstSkip(now: seq<bool>, from: nat, to: nat)
    requires from <= to <= |now|
    requires forall j :: from <= j < to ==> !now[j]
    ensures First(now, from) == First(now, to)
  {
  }

  /** Whatever a scan stops for, it has passed no match. */
  lemma ScanPassesMismatches(now: seq<bool>, wants: seq<bool>, from: nat)
    requires |now| == |wants|
    ensures
      match Scan(now, wants, from)
      case Action(i) => First(now, from) == Some(i)
      case NeedResolve(i) => First(now, from) == First(now, i + 1)
      case NoMatch => First(now, from) == None
  {
    var stop := Scan(now, wants, from);
    if stop.NeedResolve? {
      FirstSkip(now, from, stop.index + 1);
    }
  }

  /**
   A switching scan selects the first rule of `later` if and only if every rule it
   passed, and the one it stopped at, was classified correctly.
   */
  lemma ScanAgreesIff(now: seq<bool>, wants: seq<bool>, later: seq<bool>, from: nat)
    requires |now| == |wants| == |later|
    ensures
      var stop := Scan(now, wants, from);
      var last := if stop.NoMatch? then |now| else stop.index + 1;
      ScanThenFirst(now, wants, later, from) == First(later, from)
      <==> forall j :: from <= j < last ==> Sound(now[j], later[j], wants[j])
  {
    var stop := Scan(now, wants, from);
    var last := if stop.NoMatch? then |now| else stop.index + 1;
    if forall j :: from <= j < last ==> Sound(now[j], later[j], wants[j]) {
      var upTo := if stop.NoMatch? then Max(from, |now|) else stop.index;
      if upTo <= |now| {
        FirstSkip(later, from, upTo);
      }
    } else {
      var j :| from <= j < last && !Sound(now[j], later[j], wants[j]);
      assert stop.NeedResolve? ==> j < stop.index;
    }
  }
}
