/** Validation of the per-device mapping tables done by `Settings::new` after the
    configuration has been deserialised (src/settings.rs). */
module Settings {
  import opened Results
  import opened Mappings
  import opened TargetSort

  /** The two ways a device's mapping list is refused. */
  datatype ConfigError = EmptyMappingSet | OverlappingTargetRanges

  /** A device driven through the textual (MQTT) protocol. */
  datatype Tasmota = Tasmota(mqttPrefix: string, mappings: seq<LedMapping>)

  /** One step of the overlap fold: the next free target index after `m`,
      or `None` once some mapping started before the cursor. */
  function Advance(cursor: Option<nat>, m: LedMapping): Option<nat> {
    match cursor
    case None => None
    case Some(i) => if i > m.targetStart then None else Some(End(m))
  }

  /** The left fold of `Advance` over `s`. */
  function FoldCursor(cursor: Option<nat>, s: seq<LedMapping>): Option<nat>
    decreases |s|
  {
    if |s| == 0 then cursor else FoldCursor(Advance(cursor, s[0]), s[1..])
  }

  /** Each run ends no later than the next one starts. */
  predicate Chained(s: seq<LedMapping>) {
    forall k :: 0 < k < |s| ==> End(s[k - 1]) <= s[k].targetStart
  }

  /** Any two distinct positions hold runs that share no target pixel. */
  ghost predicate PairwiseDisjoint(s: seq<LedMapping>) {
    forall a, b, t :: 0 <= a < |s| && 0 <= b < |s| && a != b && Covers(s[a], t) ==> !Covers(s[b], t)
  }

  lemma {:induction false} FoldFromNone(s: seq<LedMapping>)
    ensures FoldCursor(None, s) == None
    decreases |s|
  {
    if |s| > 0 {
      FoldFromNone(s[1..]);
    }
  }

  /** The fold succeeds exactly when the cursor does not pass the first start and the runs are chained. */
  lemma {:induction false} FoldSucceedsIffChained(c: nat, s: seq<LedMapping>)
    ensures FoldCursor(Some(c), s).Some? <==> (|s| == 0 || c <= s[0].targetStart) && Chained(s)
    decreases |s|
  {
    if |s| > 0 {
      if c > s[0].targetStart {
        FoldFromNone(s[1..]);
      } else {
        FoldSucceedsIffChained(End(s[0]), s[1..]);
        assert Chained(s) <==> (|s| == 1 || End(s[0]) <= s[1].targetStart) && Chained(s[1..]) by {
          if Chained(s) {
            forall k | 0 < k < |s[1..]|
              ensures End(s[1..][k - 1]) <= s[1..][k].targetStart
            {
              assert s[1..][k - 1] == s[k] && s[1..][k] == s[k + 1];
            }
          }
          if (|s| == 1 || End(s[0]) <= s[1].targetStart) && Chained(s[1..]) {
            forall k | 0 < k < |s|
              ensures End(s[k - 1]) <= s[k].targetStart
            {
              if k > 1 {
                assert s[1..][k - 2] == s[k - 1] && s[1..][k - 1] == s[k];
              }
            }
          }
        }
      }
    }
  }

  /** Chained runs are ordered: every run ends no later than any later run starts. */
  lemma {:induction false} ChainedOrdered(s: seq<LedMapping>, a: nat, b: nat)
    requires Chained(s) && a < b < |s|
    ensures End(s[a]) <= s[b].targetStart
    decreases b - a
  {
    if a + 1 < b {
      ChainedOrdered(s, a + 1, b);
    }
  }

  lemma ChainedDisjoint(s: seq<LedMapping>)
    requires Chained(s)
    ensures PairwiseDisjoint(s)
  {
    forall a, b, t | 0 <= a < |s| && 0 <= b < |s| && a != b && Covers(s[a], t)
      ensures !Covers(s[b], t)
    {
      if a < b {
        ChainedOrdered(s, a, b);
      } else {
        ChainedOrdered(s, b, a);
      }
    }
  }

  /** Validates one device's mapping list: refuse it when empty, sort it stably by target
      start, and refuse it when some run starts before the previous one ended. */
  function Validate(ms: seq<LedMapping>): (r: Result<seq<LedMapping>, ConfigError>)
    requires AllFitU16(ms)
    ensures r == Failure(EmptyMappingSet) <==> |ms| == 0
    ensures r == Failure(OverlappingTargetRanges) <==> |ms| > 0 && !Chained(SortByTarget(ms))
    ensures r.Success? ==> r.value == SortByTarget(ms)
  {
    if |ms| == 0 then
      Failure(EmptyMappingSet)
    else
      var sorted := SortByTarget(ms);
      FoldSucceedsIffChained(0, sorted);
      if FoldCursor(Some(0), sorted).None? then Failure(OverlappingTargetRanges) else Success(sorted)
  }

  /** A validated table is a non-empty rearrangement of the input, sorted by target start,
      stable on equal starts, with pairwise disjoint target runs. */
  lemma ValidatedTable(ms: seq<LedMapping>)
    requires AllFitU16(ms) && Validate(ms).Success?
    ensures var r := Validate(ms).value;
      && |r| > 0
      && multiset(r) == multiset(ms)
      && SortedByTarget(r)
      && (forall key: nat :: WithTarget(r, key) == WithTarget(ms, key))
      && Chained(r)
      && PairwiseDisjoint(r)
      && AllFitU16(r)
  {
    var r := Validate(ms).value;
    SortByTargetCorrect(ms);
    ChainedDisjoint(r);
    forall k | 0 <= k < |r|
      ensures FitsU16(r[k])
    {
      assert r[k] in multiset(ms);
    }
  }

  /** A run starting strictly inside the previous run (in sorted order) is refused as overlapping. */
  lemma OverlapRejected(ms: seq<LedMapping>, k: nat)
    requires AllFitU16(ms)
    requires 0 < k < |ms|
    requires SortByTarget(ms)[k].targetStart < End(SortByTarget(ms)[k - 1])
    ensures Validate(ms) == Failure(OverlappingTargetRanges)
  {
  }

  /** Whether a list is accepted depends only on target starts and lengths: source starts
      and reverse flags are never looked at. */
  lemma AcceptanceIgnoresSource(ms: seq<LedMapping>, ns: seq<LedMapping>)
    requires AllFitU16(ms) && AllFitU16(ns)
    requires SameShape(ms, ns)
    ensures Validate(ms).Success? <==> Validate(ns).Success?
    ensures Validate(ms).Failure? ==> Validate(ms) == Validate(ns)
  {
    SortSameShape(ms, ns);
    var a, b := SortByTarget(ms), SortByTarget(ns);
    assert Chained(a) <==> Chained(b) by {
      forall k | 0 <= k < |a|
        ensures End(a[k]) == End(b[k]) && a[k].targetStart == b[k].targetStart
      {
      }
    }
  }

  /** The device loop of `Settings::new`: validate each device in order and stop at the first
      error; the accepted devices keep their prefix and get their validated table. */
  function ValidateDevices(ts: seq<Tasmota>): (r: Result<seq<Tasmota>, ConfigError>)
    requires forall k :: 0 <= k < |ts| ==> AllFitU16(ts[k].mappings)
    ensures r.Success? ==> |r.value| == |ts|
    decreases |ts|
  {
    if |ts| == 0 then Success([])
    else
      match Validate(ts[0].mappings)
      case Failure(e) => Failure(e)
      case Success(sorted) =>
        match ValidateDevices(ts[1..])
        case Failure(e) => Failure(e)
        case Success(rest) => Success([Tasmota(ts[0].mqttPrefix, sorted)] + rest)
  }

  /** All devices are accepted exactly when each one's table is, and then device `k` keeps
      its prefix and carries its validated table. */
  lemma {:induction false} DevicesAccepted(ts: seq<Tasmota>)
    requires forall k :: 0 <= k < |ts| ==> AllFitU16(ts[k].mappings)
    ensures ValidateDevices(ts).Success? <==> forall k :: 0 <= k < |ts| ==> Validate(ts[k].mappings).Success?
    ensures ValidateDevices(ts).Success? ==> forall k :: 0 <= k < |ts| ==>
      ValidateDevices(ts).value[k] == Tasmota(ts[k].mqttPrefix, Validate(ts[k].mappings).value)
    decreases |ts|
  {
    if |ts| > 0 {
      var tail := ts[1..];
      assert forall k :: 0 < k < |ts| ==> ts[k] == tail[k - 1];
      DevicesAccepted(tail);
    }
  }

  /** A refusal carries the error of the first refused device. */
  lemma {:induction false} DevicesRefused(ts: seq<Tasmota>)
    requires forall k :: 0 <= k < |ts| ==> AllFitU16(ts[k].mappings)
    requires ValidateDevices(ts).Failure?
    ensures exists k :: (0 <= k < |ts| && Validate(ts[k].mappings) == Failure(ValidateDevices(ts).error)
      && forall j :: 0 <= j < k ==> Validate(ts[j].mappings).Success?)
    decreases |ts|
  {
    var e := ValidateDevices(ts).error;
    if Validate(ts[0].mappings).Failure? {
      assert Validate(ts[0].mappings) == Failure(e);
    } else {
      var tail := ts[1..];
      assert forall k :: 0 < k < |ts| ==> ts[k] == tail[k - 1];
      DevicesRefused(tail);
      var k :| 0 <= k < |tail| && Validate(tail[k].mappings) == Failure(e)
        && forall j :: 0 <= j < k ==> Validate(tail[j].mappings).Success?;
      assert Validate(ts[k + 1].mappings) == Failure(e);
      assert forall j :: 0 < j < k + 1 ==> Validate(ts[j].mappings).Success?;
    }
  }
}
