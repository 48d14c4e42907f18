/**
 * The event log: a multiset of trace variants, stored as a dictionary from a
 * variant (the label sequence of a trace) to its number of occurrences.
 *
 * The first half gives the dictionary updates as functions on maps and proves
 * what they do; the class `EventLog` holds the dictionary and its methods are
 * specified by those functions.
 */
module EventLogs {
  import opened Traces

  /** A distinct label sequence, the key under which a trace is counted. */
  type Variant = seq<Label>

  /** The dictionary from variant to count.  The source never checks the sign of a count. */
  type Counts = map<Variant, int>

  /** The invariant the log keeps while every count it is given is positive. */
  ghost predicate AllPositive(m: Counts)
  {
    forall v :: v in m ==> m[v] > 0
  }

  /** The count of `v`, and 0 for a variant that is not stored. */
  function Count(m: Counts, v: Variant): (c: int)
  {
    if v in m then m[v] else 0
  }

  /** Adds `c` occurrences of `v`: increments a stored count, inserts an absent variant with `c`. */
  function Added(m: Counts, v: Variant, c: int): (r: Counts)
    ensures v in r && r.Keys == m.Keys + {v}
    ensures forall w :: Count(r, w) == if w == v then Count(m, v) + c else Count(m, w)
    ensures AllPositive(m) && c > 0 ==> AllPositive(r)
  {
    if v in m then m[v := m[v] + c] else m[v := c]
  }

  /**
   * Removes `c` occurrences of `v`: subtracts when the stored count is larger
   * than `c`, otherwise deletes the variant; an absent variant is left alone.
   */
  function Removed(m: Counts, v: Variant, c: int): (r: Counts)
    ensures v !in m ==> r == m
    ensures forall w :: w != v ==> Count(r, w) == Count(m, w)
    ensures Count(r, v) == if v in m && m[v] > c then m[v] - c else 0
    ensures v in r <==> v in m && m[v] > c
    ensures AllPositive(m) ==> AllPositive(r)
  {
    if v in m then
      if m[v] > c then m[v := m[v] - c] else m - {v}
    else
      m
  }

  /** The number of occurrences in the log: the sum of all stored counts. */
  ghost function Total(m: Counts): int
    decreases |m|
  {
    if m == map[] then 0
    else
      var v :| v in m;
      m[v] + Total(m - {v})
  }

  /** The sum does not depend on which variant is taken out first. */
  lemma {:induction false} TotalRemoveKey(m: Counts, v: Variant)
    requires v in m
    ensures Total(m) == m[v] + Total(m - {v})
    decreases |m|
  {
    var u :| u in m && Total(m) == m[u] + Total(m - {u});
    if u != v {
      TotalRemoveKey(m - {u}, v);
      TotalRemoveKey(m - {v}, u);
      assert m - {u} - {v} == m - {v} - {u};
    }
  }

  /** A log whose counts are all positive has a non-negative size, zero only when empty. */
  lemma {:induction false} TotalPositive(m: Counts)
    requires AllPositive(m)
    ensures Total(m) >= 0
    ensures Total(m) == 0 <==> m == map[]
    decreases |m|
  {
    if m != map[] {
      var v :| v in m;
      TotalRemoveKey(m, v);
      TotalPositive(m - {v});
    }
  }

  /** Adding `c` occurrences raises the size by exactly `c`. */
  lemma TotalAdded(m: Counts, v: Variant, c: int)
    ensures Total(Added(m, v, c)) == Total(m) + c
  {
    var r := Added(m, v, c);
    TotalRemoveKey(r, v);
    assert r - {v} == m - {v};
    if v in m {
      TotalRemoveKey(m, v);
    } else {
      assert m - {v} == m;
    }
  }

  /**
   * Removing `c` occurrences lowers the size by `c` or by the stored count,
   * whichever is smaller, and by nothing for an absent variant.
   */
  lemma TotalRemoved(m: Counts, v: Variant, c: int)
    ensures Total(Removed(m, v, c)) == Total(m) - (if v !in m then 0 else if c < m[v] then c else m[v])
  {
    if v in m {
      TotalRemoveKey(m, v);
      var r := Removed(m, v, c);
      if m[v] > c {
        TotalRemoveKey(r, v);
        assert r - {v} == m - {v};
      }
    }
  }

  /** Two additions of the same variant amount to one addition of the summed count. */
  lemma AddTwice(m: Counts, v: Variant, a: int, b: int)
    ensures Added(Added(m, v, a), v, b) == Added(m, v, a + b)
    ensures Count(Added(Added(m, v, a), v, b), v) == Count(m, v) + a + b
  {
  }

  /** With positive counts, adding `c` occurrences and removing them again restores the log. */
  lemma RemoveAfterAdd(m: Counts, v: Variant, c: int)
    requires AllPositive(m) && c > 0
    ensures Removed(Added(m, v, c), v, c) == m
  {
  }

  /** Removing a variant's whole count takes it out of the log. */
  lemma RemoveAllClears(m: Counts, v: Variant)
    ensures v !in Removed(m, v, Count(m, v))
    ensures Count(Removed(m, v, Count(m, v)), v) == 0
  {
  }

  /** How many of the traces a log expands into carry the labels `v`. */
  function Occurrences(m: Counts, v: Variant): (k: nat)
  {
    if v in m && m[v] > 0 then m[v] else 0
  }

  /** The label sequences of a list of traces. */
  function NodesOf(ts: seq<Trace>): (ns: seq<Variant>)
  {
    seq(|ts|, i requires 0 <= i < |ts| => ts[i].nodes)
  }

  class EventLog {
    /** Variant to number of occurrences. */
    var log: Counts

    ghost predicate Valid()
      reads this
    {
      AllPositive(log)
    }

    /** An empty log, holding one occurrence of `trace` when it is given and non-empty. */
    constructor (trace: Trace?)
      ensures Valid()
      ensures log == if trace != null && trace.Length() > 0 then map[trace.nodes := 1] else map[]
    {
      log := map[];
      new;
      if trace != null && trace.Length() > 0 {
        AddTrace(trace);
      }
    }

    /** Adds `count` occurrences of the variant of `trace`. */
    method AddTrace(trace: Trace, count: int := 1)
      modifies this
      ensures log == Added(old(log), trace.nodes, count)
      ensures old(Valid()) && count > 0 ==> Valid()
    {
      var key := trace.nodes;
      if key in log {
        log := log[key := log[key] + count];
      } else {
        log := log[key := count];
      }
    }

    /** Removes up to `count` occurrences of the variant of `trace`. */
    method RemoveTrace(trace: Trace, count: int := 1)
      modifies this
      ensures log == Removed(old(log), trace.nodes, count)
      ensures old(Valid()) ==> Valid()
    {
      var key := trace.nodes;
      if key in log {
        if log[key] > count {
          log := log[key := log[key] - count];
        } else {
          log := log - {key};
        }
      }
    }

    /** The number of occurrences of the variant of `trace`; 0 when it is not in the log. */
    function VariantCount(trace: Trace): (c: int)
      reads this
      ensures trace.nodes in log ==> c == log[trace.nodes]
      ensures trace.nodes !in log ==> c == 0
      ensures Valid() ==> (c > 0 <==> trace.nodes in log)
    {
      Count(log, trace.nodes)
    }

    /** The size of the log: the sum of the counts of all its variants. */
    method Len() returns (n: int)
      ensures n == Total(log)
    {
      n := 0;
      var rest := log;
      while rest != map[]
        invariant n + Total(rest) == Total(log)
        decreases |rest|
      {
        var v :| v in rest;
        TotalRemoveKey(rest, v);
        n := n + rest[v];
        rest := rest - {v};
      }
    }

    /**
     * Expands the log into distinct fresh traces: for each variant, as many traces
     * carrying its labels as its count says.
     */
    method Traces() returns (ts: seq<Trace>)
      ensures forall i :: 0 <= i < |ts| ==> fresh(ts[i])
      ensures forall i, j :: 0 <= i < j < |ts| ==> ts[i] != ts[j]
      ensures forall v :: multiset(NodesOf(ts))[v] == Occurrences(log, v)
      ensures Valid() ==> |ts| == Total(log)
    {
      ts := [];
      var rest := log;
      while rest != map[]
        invariant forall i :: 0 <= i < |ts| ==> fresh(ts[i])
        invariant ExpandedSoFar(ts, rest, log)
        decreases |rest|
      {
        var variant :| variant in rest;
        var copies := Repeat(variant, rest[variant]);
        ExpandStep(ts, copies, rest, log, variant);
        ts := ts + copies;
        rest := rest - {variant};
      }
    }
  }

  /**
   * Part way through the expansion of `m`: the traces `ts` produced so far
   * are distinct, the variants still to do carry their counts in `m`, and
   * `ts` together with what those variants will produce gives the expansion
   * of `m`, both label by label and in number.
   */
  ghost predicate ExpandedSoFar(ts: seq<Trace>, rest: Counts, m: Counts)
  {
    && Distinct(ts)
    && (forall v :: v in rest ==> v in m && rest[v] == m[v])
    && (forall v :: multiset(NodesOf(ts))[v] + Occurrences(rest, v) == Occurrences(m, v))
    && (AllPositive(m) ==> AllPositive(rest) && |ts| + Total(rest) == Total(m))
  }

  lemma ExpandStep(ts: seq<Trace>, copies: seq<Trace>, rest: Counts, m: Counts, variant: Variant)
    requires ExpandedSoFar(ts, rest, m) && variant in rest
    requires Distinct(copies)
    requires forall i, j :: 0 <= i < |ts| && 0 <= j < |copies| ==> ts[i] != copies[j]
    requires |copies| == if rest[variant] > 0 then rest[variant] else 0
    requires forall v :: multiset(NodesOf(copies))[v] == if v == variant then Occurrences(rest, variant) else 0
    ensures ExpandedSoFar(ts + copies, rest - {variant}, m)
  {
    NodesOfAppend(ts, copies);
    DistinctAppend(ts, copies);
    TotalRemoveKey(rest, variant);
    var ns, added := NodesOf(ts), NodesOf(copies);
    forall v
      ensures multiset(ns + added)[v] + Occurrences(rest - {variant}, v) == Occurrences(m, v)
    {
      assert multiset(ns + added)[v] == multiset(ns)[v] + multiset(added)[v];
    }
  }

  /** `count` distinct fresh traces carrying the labels `variant`; none when `count` is not positive. */
  method Repeat(variant: Variant, count: int) returns (ts: seq<Trace>)
    ensures forall i :: 0 <= i < |ts| ==> fresh(ts[i])
    ensures forall i, j :: 0 <= i < j < |ts| ==> ts[i] != ts[j]
    ensures |ts| == if count > 0 then count else 0
    ensures forall v :: multiset(NodesOf(ts))[v] == if v == variant && count > 0 then count else 0
  {
    ts := [];
    var j := 0;
    while j < count
      invariant 0 <= j <= (if count > 0 then count else 0)
      invariant forall i :: 0 <= i < |ts| ==> fresh(ts[i])
      invariant forall i, j :: 0 <= i < j < |ts| ==> ts[i] != ts[j]
      invariant |ts| == j
      invariant forall v :: multiset(NodesOf(ts))[v] == if v == variant then j else 0
    {
      var t := new Trace(variant);
      NodesOfAppend(ts, [t]);
      ts := ts + [t];
      j := j + 1;
    }
  }

  /** No trace object occurs twice in `ts`. */
  ghost predicate Distinct(ts: seq<Trace>)
  {
    forall i, j :: 0 <= i < j < |ts| ==> ts[i] != ts[j]
  }

  lemma DistinctAppend(a: seq<Trace>, b: seq<Trace>)
    requires Distinct(a) && Distinct(b)
    requires forall i, j :: 0 <= i < |a| && 0 <= j < |b| ==> a[i] != b[j]
    ensures Distinct(a + b)
  {
  }

  lemma NodesOfAppend(a: seq<Trace>, b: seq<Trace>)
    ensures NodesOf(a + b) == NodesOf(a) + NodesOf(b)
  {
  }
}
