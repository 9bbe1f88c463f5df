/** scripts/org_limits_monitor.py: bucketing org limits by usage and the monitor's exit status. */
module OrgLimits {
  import opened Wrappers
  import opened Ratios

  /** One entry of the org's limit list; each field may be missing. */
  datatype LimitEntry = LimitEntry(name: Option<string>, max: Option<int>, remaining: Option<int>)

  /** The `limit_info` dict built for every limit with a non-zero maximum. */
  datatype LimitInfo = LimitInfo(name: string, used: int, max: int, remaining: int, usedPct: real)

  datatype Level = Critical | Warning | Ok

  /** Usage at or above this percentage is critical whatever the alert threshold. */
  const CriticalPct: real := 90.0

  const UnknownName: string := "Unknown"

  /** `(used / max_val) * 100` */
  function UsedPct(used: int, max: int): (pct: real)
    requires max != 0
    ensures max > 0 ==> (pct >= 90.0 <==> 10 * used >= 9 * max)
  {
    var pct := (used as real / max as real) * 100.0;
    assert max > 0 ==> (pct < 90.0 <==> 100.0 * used as real < 90.0 * max as real) by {
      if max > 0 { PctBelow(used as real, max as real, 90.0); }
    }
    pct
  }

  /** The bucket a usage percentage falls into. */
  function LevelOf(pct: real, threshold: int): (l: Level)
    ensures l == Critical <==> pct >= CriticalPct
    ensures l == Warning <==> threshold as real <= pct < CriticalPct
    ensures l == Ok <==> pct < CriticalPct && pct < threshold as real
  {
    if pct >= CriticalPct then Critical
    else if pct >= threshold as real then Warning
    else Ok
  }

  /** The info for one entry, or `None` when its maximum is 0 and it is skipped. */
  function Info(e: LimitEntry): (r: Option<LimitInfo>)
    ensures r.None? <==> e.max.GetOr(0) == 0
    ensures r.Some? ==> r.value.name == e.name.GetOr(UnknownName)
                        && r.value.max == e.max.GetOr(0)
                        && r.value.remaining == e.remaining.GetOr(0)
                        && r.value.used == r.value.max - r.value.remaining
                        && r.value.usedPct * (r.value.max as real) == (r.value.used as real) * 100.0
  {
    var max := e.max.GetOr(0);
    var remaining := e.remaining.GetOr(0);
    if max == 0 then None
    else
      var used := max - remaining;
      Some(LimitInfo(e.name.GetOr(UnknownName), used, max, remaining, UsedPct(used, max)))
  }

  /** Reference definition: the infos of the limits that are not skipped, in input order. */
  function Infos(limits: seq<LimitEntry>): (r: seq<LimitInfo>)
    ensures |r| <= |limits|
    decreases |limits|
  {
    if |limits| == 0 then []
    else
      var rest := Infos(limits[..|limits| - 1]);
      match Info(limits[|limits| - 1])
      case None => rest
      case Some(info) => rest + [info]
  }

  /** Reference definition: the infos at level `l`, in order. */
  function OfLevel(infos: seq<LimitInfo>, threshold: int, l: Level): (r: seq<LimitInfo>)
    ensures forall x :: x in r ==> x in infos && LevelOf(x.usedPct, threshold) == l
    decreases |infos|
  {
    if |infos| == 0 then []
    else
      var last := infos[|infos| - 1];
      var rest := OfLevel(infos[..|infos| - 1], threshold, l);
      if LevelOf(last.usedPct, threshold) == l then rest + [last] else rest
  }

  function CountNonZeroMax(limits: seq<LimitEntry>): nat
    decreases |limits|
  {
    if |limits| == 0 then 0
    else CountNonZeroMax(limits[..|limits| - 1]) + (if limits[|limits| - 1].max.GetOr(0) == 0 then 0 else 1)
  }

  /** `analyze_limits(limits, threshold)`: each limit with a non-zero maximum appended to the
      bucket its usage selects. */
  method AnalyzeLimits(limits: seq<LimitEntry>, threshold: int)
    returns (critical: seq<LimitInfo>, warning: seq<LimitInfo>, ok: seq<LimitInfo>)
    ensures critical == OfLevel(Infos(limits), threshold, Critical)
    ensures warning == OfLevel(Infos(limits), threshold, Warning)
    ensures ok == OfLevel(Infos(limits), threshold, Ok)
    ensures |critical| + |warning| + |ok| == CountNonZeroMax(limits)
  {
    critical, warning, ok := [], [], [];
    var i := 0;
    while i < |limits|
      invariant i <= |limits|
      invariant critical == OfLevel(Infos(limits[..i]), threshold, Critical)
      invariant warning == OfLevel(Infos(limits[..i]), threshold, Warning)
      invariant ok == OfLevel(Infos(limits[..i]), threshold, Ok)
    {
      BucketStep(limits, i, threshold, Critical);
      BucketStep(limits, i, threshold, Warning);
      BucketStep(limits, i, threshold, Ok);
      critical, warning, ok := AddLimit(limits[i], threshold, critical, warning, ok);
      i := i + 1;
    }
    assert limits[..i] == limits;
    PartitionSizes(Infos(limits), threshold);
    InfosCount(limits);
  }

  /** What one limit adds to the bucket of level `l`: its info, if it has one at that level. */
  function Added(e: LimitEntry, threshold: int, l: Level): (r: seq<LimitInfo>)
    ensures |r| <= 1
    ensures |r| == 1 <==> Info(e).Some? && LevelOf(Info(e).value.usedPct, threshold) == l
  {
    match Info(e)
    case None => []
    case Some(x) => if LevelOf(x.usedPct, threshold) == l then [x] else []
  }

  /** The body of the loop of `analyze_limits` for one limit. */
  method AddLimit(e: LimitEntry, threshold: int, critical: seq<LimitInfo>, warning: seq<LimitInfo>, ok: seq<LimitInfo>)
    returns (critical': seq<LimitInfo>, warning': seq<LimitInfo>, ok': seq<LimitInfo>)
    ensures critical' == critical + Added(e, threshold, Critical)
    ensures warning' == warning + Added(e, threshold, Warning)
    ensures ok' == ok + Added(e, threshold, Ok)
  {
    critical', warning', ok' := critical, warning, ok;
    var max := e.max.GetOr(0);
    var remaining := e.remaining.GetOr(0);
    if max != 0 {
      var used := max - remaining;
      var info := LimitInfo(e.name.GetOr(UnknownName), used, max, remaining, UsedPct(used, max));
      var level := LevelOf(info.usedPct, threshold);
      if level == Critical {
        critical' := critical + [info];
      } else if level == Warning {
        warning' := warning + [info];
      } else {
        ok' := ok + [info];
      }
    }
  }

  /** One more limit adds its info, if any, to the bucket its level selects. */
  lemma BucketStep(limits: seq<LimitEntry>, i: nat, threshold: int, l: Level)
    requires i < |limits|
    ensures OfLevel(Infos(limits[..i + 1]), threshold, l)
            == OfLevel(Infos(limits[..i]), threshold, l) + Added(limits[i], threshold, l)
  {
    InfosSnoc(limits[..i], limits[i]);
    assert limits[..i + 1] == limits[..i] + [limits[i]];
    if Info(limits[i]).Some? {
      OfLevelSnoc(Infos(limits[..i]), Info(limits[i]).value, threshold, l);
    }
  }

  lemma InfosSnoc(limits: seq<LimitEntry>, e: LimitEntry)
    ensures Infos(limits + [e]) == Infos(limits) + (if Info(e).Some? then [Info(e).value] else [])
  {
    assert (limits + [e])[..|limits|] == limits;
  }

  lemma OfLevelSnoc(infos: seq<LimitInfo>, x: LimitInfo, threshold: int, l: Level)
    ensures OfLevel(infos + [x], threshold, l)
            == OfLevel(infos, threshold, l) + (if LevelOf(x.usedPct, threshold) == l then [x] else [])
  {
    assert (infos + [x])[..|infos|] == infos;
  }

  /** Every info lands in exactly one bucket. */
  lemma {:induction false} PartitionSizes(infos: seq<LimitInfo>, threshold: int)
    ensures |OfLevel(infos, threshold, Critical)| + |OfLevel(infos, threshold, Warning)|
            + |OfLevel(infos, threshold, Ok)| == |infos|
    decreases |infos|
  {
    if |infos| > 0 {
      PartitionSizes(infos[..|infos| - 1], threshold);
    }
  }

  /** Exactly the limits with a non-zero maximum produce an info. */
  lemma {:induction false} InfosCount(limits: seq<LimitEntry>)
    ensures |Infos(limits)| == CountNonZeroMax(limits)
    decreases |limits|
  {
    if |limits| > 0 {
      InfosCount(limits[..|limits| - 1]);
    }
  }

  /** A limit whose maximum is 0 (or missing) is in no bucket: the buckets hold only infos. */
  lemma SkippedInNoBucket(limits: seq<LimitEntry>, threshold: int, l: Level, x: LimitInfo)
    requires x in OfLevel(Infos(limits), threshold, l)
    ensures x.max != 0
    ensures exists e :: e in limits && Info(e) == Some(x)
  {
    InfosFromLimits(limits, x);
  }

  lemma {:induction false} InfosFromLimits(limits: seq<LimitEntry>, x: LimitInfo)
    requires x in Infos(limits)
    ensures x.max != 0
    ensures exists e :: e in limits && Info(e) == Some(x)
    decreases |limits|
  {
    var prefix := limits[..|limits| - 1];
    var last := limits[|limits| - 1];
    assert last in limits;
    if x in Infos(prefix) {
      InfosFromLimits(prefix, x);
      var e :| e in prefix && Info(e) == Some(x);
      assert e in limits;
    } else {
      assert Info(last) == Some(x);
    }
  }

  /** Buckets keep input order: an info that comes first in the input comes first in its bucket. */
  lemma {:induction false} OfLevelAppend(a: seq<LimitInfo>, b: seq<LimitInfo>, threshold: int, l: Level)
    ensures OfLevel(a + b, threshold, l) == OfLevel(a, threshold, l) + OfLevel(b, threshold, l)
    decreases |b|
  {
    if |b| == 0 {
      assert a + b == a;
    } else {
      var b' := b[..|b| - 1];
      assert (a + b)[..|a + b| - 1] == a + b';
      OfLevelAppend(a, b', threshold, l);
    }
  }

  /** `format_report`'s return value. */
  function ExitStatus(critical: seq<LimitInfo>, warning: seq<LimitInfo>): (code: int)
    ensures code == 2 <==> |critical| > 0
    ensures code == 1 <==> |critical| == 0 && |warning| > 0
    ensures code == 0 <==> |critical| == 0 && |warning| == 0
  {
    if |critical| > 0 then 2 else if |warning| > 0 then 1 else 0
  }

  /** The monitor's exit status once the limits are fetched: 1 when no limit came back; otherwise 2 iff
      some limit is at or above 90%, else 1 iff some limit reaches the threshold, else 0. */
  method MonitorExit(limits: seq<LimitEntry>, threshold: int) returns (code: int)
    ensures |limits| == 0 ==> code == 1
    ensures |limits| > 0 ==> (code == 2 <==> exists x :: x in Infos(limits) && x.usedPct >= CriticalPct)
    ensures |limits| > 0 ==> (code == 1 <==> (forall x :: x in Infos(limits) ==> x.usedPct < CriticalPct)
                                             && exists x :: x in Infos(limits) && threshold as real <= x.usedPct)
    ensures |limits| > 0 ==> (code == 0 <==> forall x :: x in Infos(limits) ==> LevelOf(x.usedPct, threshold) == Ok)
  {
    if |limits| == 0 {
      return 1;
    }
    var critical, warning, ok := AnalyzeLimits(limits, threshold);
    code := ExitStatus(critical, warning);
    NonEmptyLevel(Infos(limits), threshold, Critical);
    NonEmptyLevel(Infos(limits), threshold, Warning);
  }

  lemma {:induction false} NonEmptyLevel(infos: seq<LimitInfo>, threshold: int, l: Level)
    ensures |OfLevel(infos, threshold, l)| > 0 <==> exists x :: x in infos && LevelOf(x.usedPct, threshold) == l
    decreases |infos|
  {
    if |infos| > 0 {
      var prefix := infos[..|infos| - 1];
      var last := infos[|infos| - 1];
      NonEmptyLevel(prefix, threshold, l);
      assert forall x :: x in infos <==> x in prefix || x == last;
    }
  }
}
