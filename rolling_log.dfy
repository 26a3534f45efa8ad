/** The bounded rolling log of received events: append the newest entry, then
    keep only the most recent `Capacity` entries, oldest evicted first. */
module RollingLog {

  /** How many events the stored log keeps. */
  const Capacity: nat := 100

  function Min(a: nat, b: nat): nat {
    if a <= b then a else b
  }

  /** Python's slice `s[-n:]` for a positive `n`: the last `n` elements of `s`,
      or all of `s` when it is shorter. */
  function KeepLast<T>(s: seq<T>, n: nat): (r: seq<T>)
    requires n > 0
    ensures |r| == Min(|s|, n)
    ensures |s| <= n ==> r == s
    ensures forall i :: 0 <= i < |r| ==> r[i] == s[|s| - |r| + i]
  {
    if |s| <= n then s else s[|s| - n..]
  }

  /** The log after one accepted event: `events.append(event)` followed by
      `events = events[-100:]`. */
  function Roll<T>(log: seq<T>, e: T): (r: seq<T>)
    ensures 0 < |r| <= Capacity
    ensures r[|r| - 1] == e
    ensures log == [] ==> r == [e]
    ensures |log| < Capacity ==> r == log + [e]
    ensures |log| >= Capacity ==> r == log[|log| + 1 - Capacity..] + [e]
  {
    KeepLast(log + [e], Capacity)
  }

  /** When the log is exactly full, the oldest entry, and only it, is dropped;
      the survivors keep their order. */
  lemma RollWhenFull<T>(log: seq<T>, e: T)
    requires |log| == Capacity
    ensures Roll(log, e) == log[1..] + [e]
    ensures |Roll(log, e)| == |log|
  {
  }

  /** Nothing deduplicates: the same event delivered twice in a row ends the
      log as two entries. */
  lemma DuplicatesKept<T>(log: seq<T>, e: T)
    ensures var r := Roll(Roll(log, e), e); |r| >= 2 && r[|r| - 2..] == [e, e]
  {
  }

  /** The log after a series of accepted events, handled one call at a time in
      arrival order. */
  function RollAll<T>(log: seq<T>, es: seq<T>): seq<T>
    decreases |es|
  {
    if es == [] then log else RollAll(Roll(log, es[0]), es[1..])
  }

  /** Trimming before appending more loses nothing that a trim after
      appending would keep. */
  lemma KeepLastAbsorbs<T>(s: seq<T>, t: seq<T>, n: nat)
    requires n > 0
    ensures KeepLast(KeepLast(s, n) + t, n) == KeepLast(s + t, n)
  {
  }

  /** However many events arrive, the log holds the most recent `Capacity`
      of everything it held before and everything accepted since, in arrival
      order. */
  lemma {:induction false} RollAllKeepsMostRecent<T>(log: seq<T>, es: seq<T>)
    requires es != []
    ensures RollAll(log, es) == KeepLast(log + es, Capacity)
    decreases |es|
  {
    var e, rest := es[0], es[1..];
    assert log + es == (log + [e]) + rest;
    if rest == [] {
      assert log + es == log + [e];
    } else {
      RollAllKeepsMostRecent(Roll(log, e), rest);
      KeepLastAbsorbs(log + [e], rest, Capacity);
    }
  }
}
