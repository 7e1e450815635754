/** The set associative cache of xtask/src/aux_plane.rs, against the whole history of what was accessed. */
module LruCache {
  import opened Powers
  import opened Bits

  predicate NoDuplicates(s: seq<nat>) {
    forall i, j :: 0 <= i < j < |s| ==> s[i] != s[j]
  }

  /** A sequence without its first `x`. */
  function Without(s: seq<nat>, x: nat): seq<nat> {
    if s == [] then [] else if s[0] == x then s[1..] else [s[0]] + Without(s[1..], x)
  }

  function Take(s: seq<nat>, n: nat): seq<nat> { if |s| <= n then s else s[..n] }

  /** The distinct lines of a history, the most recently used first. */
  function Recency(history: seq<nat>): seq<nat> {
    if history == [] then []
    else
      var last := history[|history| - 1];
      [last] + Without(Recency(history[..|history| - 1]), last)
  }

  lemma RecencyAfter(history: seq<nat>, line: nat)
    ensures Recency(history + [line]) == [line] + Without(Recency(history), line)
  {
    assert (history + [line])[..|history|] == history;
  }

  /** Taking an element out, by where it is. */
  lemma {:induction false} WithoutAt(s: seq<nat>, x: nat, i: nat)
    requires i < |s| && s[i] == x && x !in s[..i]
    ensures Without(s, x) == s[..i] + s[i + 1..]
  {
    if i > 0 {
      assert s[0] in s[..i];
      assert s[1..][..i - 1] == s[..i][1..];
      WithoutAt(s[1..], x, i - 1);
      assert s[..i] == [s[0]] + s[1..][..i - 1];
    } else {
      assert s[..0] + s[1..] == s[1..];
    }
  }

  lemma {:induction false} WithoutAbsent(s: seq<nat>, x: nat)
    requires x !in s
    ensures Without(s, x) == s
  {
    if s != [] { WithoutAbsent(s[1..], x); }
  }

  lemma FirstOf(s: seq<nat>, x: nat) returns (i: nat)
    requires x in s
    ensures i < |s| && s[i] == x && x !in s[..i]
  {
    if s[0] == x {
      i := 0;
    } else {
      var k := FirstOf(s[1..], x);
      i := k + 1;
      assert s[..i] == [s[0]] + s[1..][..k];
    }
  }

  lemma MovedToFront(r: seq<nat>, last: nat)
    requires NoDuplicates(r)
    ensures NoDuplicates([last] + Without(r, last))
    ensures forall x: nat :: x in [last] + Without(r, last) <==> x == last || x in r
  {
    if last in r {
      var i := FirstOf(r, last);
      WithoutAt(r, last, i);
      var rest := r[..i] + r[i + 1..];
      assert r == r[..i] + [last] + r[i + 1..];
      assert last !in rest;
    } else {
      WithoutAbsent(r, last);
    }
  }

  lemma {:induction false} RecencyHasNoDuplicates(history: seq<nat>)
    ensures NoDuplicates(Recency(history))
    ensures forall x: nat :: x in Recency(history) <==> x in history
  {
    if history != [] {
      var before, last := history[..|history| - 1], history[|history| - 1];
      hide NoDuplicates, Without;
      RecencyHasNoDuplicates(before);
      assert history == before + [last];
      MovedToFront(Recency(before), last);
    }
  }

  // The different lines of a piece of a history.
  function Lines(s: seq<nat>): set<nat> { set x | x in s }

  /** Where a line was last used. */
  predicate LastUsedAt(history: seq<nat>, line: nat, at: nat) {
    at < |history| && history[at] == line && line !in history[at + 1..]
  }

  /** A line is among the `ways` most recently used different ones: fewer than that many others were used since. */
  ghost predicate IsRecent(history: seq<nat>, line: nat, ways: nat) {
    exists at: nat :: LastUsedAt(history, line, at) && |Lines(history[at + 1..])| < ways
  }

  lemma SameIndex(s: seq<nat>, i: nat, j: nat)
    requires NoDuplicates(s) && i < |s| && j < |s| && s[i] == s[j]
    ensures i == j
  {
  }

  /** What is ahead of a line in the order of use is what was used since the line was. */
  lemma {:induction false} AheadIsUsedSince(history: seq<nat>, line: nat, at: nat, i: nat)
    requires LastUsedAt(history, line, at)
    requires i < |Recency(history)| && Recency(history)[i] == line
    ensures Lines(Recency(history)[..i]) == Lines(history[at + 1..])
  {
    hide Without, NoDuplicates;
    var n := |history| - 1;
    var before, last := history[..n], history[n];
    var r := Recency(before);
    RecencyHasNoDuplicates(history);
    RecencyHasNoDuplicates(before);
    assert Recency(history) == [last] + Without(r, last);
    if at == n {
      SameIndex(Recency(history), 0, i);
      assert Recency(history)[..0] == [] && history[n + 1..] == [];
    } else {
      assert last == history[at + 1..][n - at - 1];
      assert last != line;
      assert before[at + 1..] == history[at + 1..][..n - at - 1];
      assert LastUsedAt(before, line, at);
      var j := FirstOf(r, line);
      AheadIsUsedSince(before, line, at, j);
      AheadAfter(r, last, line, i, j);
      assert history[at + 1..] == before[at + 1..] + [last];
    }
  }

  /** Using another line puts it ahead. */
  lemma AheadAfter(r: seq<nat>, last: nat, line: nat, i: nat, j: nat)
    requires NoDuplicates([last] + Without(r, last)) && NoDuplicates(r) && last != line && j < |r| && r[j] == line
    requires var after := [last] + Without(r, last); i < |after| && after[i] == line
    ensures Lines(([last] + Without(r, last))[..i]) == Lines(r[..j]) + {last}
  {
    if last in r {
      var k := FirstOf(r, last);
      WithoutAt(r, last, k);
      MovedAhead(r, last, line, i, j, k);
    } else {
      WithoutAbsent(r, last);
      assert ([last] + r)[j + 1] == line;
      assert ([last] + r)[..j + 1] == [last] + r[..j];
    }
  }

  lemma MovedAhead(r: seq<nat>, last: nat, line: nat, i: nat, j: nat, k: nat)
    requires last != line && j < |r| && r[j] == line && k < |r| && r[k] == last
    requires NoDuplicates([last] + (r[..k] + r[k + 1..])) && i < |r| && ([last] + (r[..k] + r[k + 1..]))[i] == line
    ensures Lines(([last] + (r[..k] + r[k + 1..]))[..i]) == Lines(r[..j]) + {last}
  {
    var after := [last] + (r[..k] + r[k + 1..]);
    if k < j {
      assert after[j] == line;
      assert after[..j] == [last] + r[..k] + r[k + 1..j];
      assert r[..j] == r[..k] + [last] + r[k + 1..j];
    } else {
      assert after[j + 1] == line;
      assert after[..j + 1] == [last] + r[..j];
    }
  }

  lemma {:induction false} CountOfLines(s: seq<nat>)
    requires NoDuplicates(s)
    ensures |Lines(s)| == |s|
  {
    if s != [] {
      CountOfLines(s[1..]);
      assert Lines(s) == {s[0]} + Lines(s[1..]);
      assert s[0] !in s[1..];
    }
  }

  /** The first `ways` of the order of use are the lines that are recent, and no others. */
  lemma TakenIsRecent(history: seq<nat>, line: nat, ways: nat)
    ensures line in Take(Recency(history), ways) <==> IsRecent(history, line, ways)
  {
    var r := Recency(history);
    RecencyHasNoDuplicates(history);
    if line in r {
      var at := LastUse(history, line);
      var i := FirstOf(r, line);
      AheadIsUsedSince(history, line, at, i);
      CountOfLines(r[..i]);
      assert i < ways ==> Take(r, ways)[i] == line;
      OneLastUse(history, line, at);
    }
  }

  lemma NotUsedAfter(history: seq<nat>, line: nat, at: nat, later: nat)
    requires LastUsedAt(history, line, at) && at < later < |history|
    ensures history[later] != line
  {
    assert history[later] == history[at + 1..][later - at - 1];
  }

  lemma LastUse(history: seq<nat>, line: nat) returns (at: nat)
    requires line in history
    ensures LastUsedAt(history, line, at)
  {
    var n := |history| - 1;
    if history[n] == line {
      at := n;
    } else {
      assert line in history[..n];
      at := LastUse(history[..n], line);
      assert history[at + 1..] == history[..n][at + 1..] + [history[n]];
    }
  }

  /** The part of a history that is in one set. */
  function InSet(history: seq<nat>, index: nat, sets: nat): seq<nat>
    requires sets > 0
  {
    if history == [] then []
    else
      var n := |history| - 1;
      InSet(history[..n], index, sets) + if history[n] % sets == index then [history[n]] else []
  }

  /** The different lines of one set in a history. */
  function LinesInSet(history: seq<nat>, index: nat, sets: nat): set<nat>
    requires sets > 0
  {
    set line | line in history && line % sets == index
  }

  /** A line was used, and since then fewer than `ways` different lines of its set were. */
  ghost predicate IsRecentInSet(history: seq<nat>, line: nat, sets: nat, ways: nat)
    requires sets > 0
  {
    exists at: nat :: LastUsedAt(history, line, at) && |LinesInSet(history[at + 1..], line % sets, sets)| < ways
  }

  lemma LinesTogether(first: seq<nat>, second: seq<nat>)
    ensures Lines(first + second) == Lines(first) + Lines(second)
  {
  }

  lemma {:induction false} InSetHas(history: seq<nat>, index: nat, sets: nat)
    requires sets > 0
    ensures Lines(InSet(history, index, sets)) == LinesInSet(history, index, sets)
  {
    if history != [] {
      var n := |history| - 1;
      InSetHas(history[..n], index, sets);
      assert history == history[..n] + [history[n]];
      var last := if history[n] % sets == index then [history[n]] else [];
      assert InSet(history, index, sets) == InSet(history[..n], index, sets) + last;
      assert Lines(last) == LinesInSet([history[n]], index, sets);
      LinesTogether(InSet(history[..n], index, sets), last);
    }
  }

  lemma {:induction false} InSetSplits(first: seq<nat>, second: seq<nat>, index: nat, sets: nat)
    requires sets > 0
    ensures InSet(first + second, index, sets) == InSet(first, index, sets) + InSet(second, index, sets)
  {
    if second == [] {
      assert first + second == first;
    } else {
      var n := |second| - 1;
      InSetSplits(first, second[..n], index, sets);
      assert (first + second)[..|first| + n] == first + second[..n];
    }
  }

  /** The last use in a history is the last in the part of it that is in the line's set, with the same lines since. */
  lemma LastUseInSet(history: seq<nat>, line: nat, sets: nat, at: nat) returns (at': nat)
    requires sets > 0 && LastUsedAt(history, line, at)
    ensures var part := InSet(history, line % sets, sets);
      LastUsedAt(part, line, at') && Lines(part[at' + 1..]) == LinesInSet(history[at + 1..], line % sets, sets)
  {
    hide InSet;
    var index := line % sets;
    var before, since := history[..at], history[at + 1..];
    assert history == before + ([line] + since);
    InSetSplits(before, [line] + since, index, sets);
    InSetSplits([line], since, index, sets);
    OneInSet(line, sets);
    InSetHas(since, index, sets);
    var rest := InSet(since, index, sets);
    at' := |InSet(before, index, sets)|;
    assert InSet(history, index, sets) == InSet(before, index, sets) + [line] + rest;
    assert InSet(history, index, sets)[at' + 1..] == rest;
    assert line in rest ==> line in Lines(rest);
  }

  lemma OneInSet(line: nat, sets: nat)
    requires sets > 0
    ensures InSet([line], line % sets, sets) == [line]
  {
    assert [line][..0] == [];
  }

  /** Being recent in the part of the history that is in the set is being recent in the set. */
  lemma RecentInSet(history: seq<nat>, line: nat, sets: nat, ways: nat)
    requires sets > 0
    ensures IsRecent(InSet(history, line % sets, sets), line, ways) <==> IsRecentInSet(history, line, sets, ways)
  {
    hide InSet;
    var part := InSet(history, line % sets, sets);
    if line in history {
      var at := LastUse(history, line);
      var at' := LastUseInSet(history, line, sets, at);
      OneLastUse(history, line, at);
      OneLastUse(part, line, at');
    } else {
      InSetHas(history, line % sets, sets);
      assert line in part ==> line in Lines(part);
    }
  }

  lemma OneLastUse(history: seq<nat>, line: nat, at: nat)
    requires LastUsedAt(history, line, at)
    ensures forall other: nat :: LastUsedAt(history, line, other) ==> other == at
  {
    forall other: nat | LastUsedAt(history, line, other) ensures other == at {
      if other < at {
        NotUsedAfter(history, line, other, at);
      } else if at < other {
        NotUsedAfter(history, line, at, other);
      }
    }
  }

  /** What a set of so many ways holds after a history. */
  function Held(history: seq<nat>, index: nat, sets: nat, ways: nat): seq<nat>
    requires sets > 0
  {
    Take(Recency(InSet(history, index, sets)), ways)
  }

  /** Whether the next access finds its line. */
  predicate Finds(history: seq<nat>, line: nat, sets: nat, ways: nat)
    requires sets > 0
  {
    line in Held(history, line % sets, sets, ways)
  }

  /** How many accesses of a history found their lines. */
  function Hits(history: seq<nat>, sets: nat, ways: nat): nat
    requires sets > 0
  {
    if history == [] then 0
    else
      var n := |history| - 1;
      Hits(history[..n], sets, ways) + if Finds(history[..n], history[n], sets, ways) then 1 else 0
  }

  /** A hit is a line among the `ways` most recently used different lines of its set, over the whole history. */
  lemma FindsWhatIsRecent(history: seq<nat>, line: nat, sets: nat, ways: nat)
    requires sets > 0
    ensures Finds(history, line, sets, ways) <==> IsRecentInSet(history, line, sets, ways)
  {
    TakenIsRecent(InSet(history, line % sets, sets), line, ways);
    RecentInSet(history, line, sets, ways);
  }

  /** A set holds no line twice, and no more lines than it has ways. */
  lemma HeldIsDistinct(history: seq<nat>, index: nat, sets: nat, ways: nat)
    requires sets > 0
    ensures NoDuplicates(Held(history, index, sets, ways)) && |Held(history, index, sets, ways)| <= ways
  {
    RecencyHasNoDuplicates(InSet(history, index, sets));
  }

  /** What fewer ways hold is the front of what more ways do. */
  lemma MoreWaysHoldMore(history: seq<nat>, index: nat, sets: nat, ways: nat, more: nat)
    requires sets > 0 && ways <= more
    ensures Held(history, index, sets, ways) <= Held(history, index, sets, more)
  {
  }

  /** Hits never fall as ways grow. */
  lemma {:induction false} MoreWaysHitMore(history: seq<nat>, sets: nat, ways: nat, more: nat)
    requires sets > 0 && ways <= more
    ensures Hits(history, sets, ways) <= Hits(history, sets, more)
  {
    if history != [] {
      var n := |history| - 1;
      MoreWaysHitMore(history[..n], sets, ways, more);
      MoreWaysHoldMore(history[..n], history[n] % sets, sets, ways, more);
    }
  }

  /** What an access that finds its line does to the first `ways` of the order of use. */
  lemma TakeAfterHit(r: seq<nat>, line: nat, ways: nat, at: nat)
    requires ways >= 1 && NoDuplicates(r) && at < |Take(r, ways)| && Take(r, ways)[at] == line
    ensures var held := Take(r, ways);
      Take([line] + Without(r, line), ways) == [line] + (held[..at] + held[at + 1..])
  {
    hide Without;
    assert line !in r[..at];
    WithoutAt(r, line, at);
    var after := [line] + (r[..at] + r[at + 1..]);
    if |r| > ways {
      assert after[..ways] == [line] + (r[..at] + r[at + 1..ways]);
      assert Take(r, ways)[at + 1..] == r[at + 1..ways];
    }
  }

  lemma TakeHolds(s: seq<nat>, n: nat, k: nat)
    requires k < |s| && k < n
    ensures s[k] in Take(s, n)
  {
    assert Take(s, n)[k] == s[k];
  }

  /** And what one that does not find it does: the least recently used goes, where the set is full. */
  lemma TakeAfterMiss(r: seq<nat>, line: nat, ways: nat)
    requires ways >= 1 && line !in Take(r, ways)
    ensures var held := Take(r, ways);
      Take([line] + Without(r, line), ways) == [line] + if |held| == ways then held[..ways - 1] else held
  {
    if line in r {
      var k := FirstOf(r, line);
      WithoutAt(r, line, k);
      if k < ways { TakeHolds(r, ways, k); }
    } else {
      WithoutAbsent(r, line);
    }
  }

  function TrailingZeros(n: nat): (z: nat)
    requires n > 0
    ensures n % Pow2(z) == 0 && n / Pow2(z) % 2 == 1
  {
    if n % 2 == 1 then NoZeros(n); 0 else var z := TrailingZeros(n / 2); OneMoreZero(n, z); z + 1
  }

  lemma NoZeros(n: nat)
    ensures n % Pow2(0) == 0 && n / Pow2(0) == n
  {
  }

  lemma OneMoreZero(n: nat, z: nat)
    requires n % 2 == 0
    ensures n % Pow2(z + 1) == n / 2 % Pow2(z) * 2 && n / Pow2(z + 1) == n / 2 / Pow2(z)
  {
    var p := Pow2(z);
    assert Pow2(z + 1) == 2 * p;
    hide Pow2;
    DivDiv(n, 2, p);
  }

  class Cache {
    var sets: seq<seq<nat>>
    const ways: nat
    const shift: nat
    var hits: nat
    var misses: nat
    // Every line that was read.
    ghost var history: seq<nat>

    ghost predicate Valid()
      reads this
    {
      && |sets| >= 1 && ways >= 1
      && (forall s :: 0 <= s < |sets| ==> sets[s] == Held(history, s, |sets|, ways))
      && hits == Hits(history, |sets|, ways)
      && misses == |history| - hits
    }

    /** A cache of `bytes` bytes in lines of `line` bytes, with at least one set. */
    constructor (bytes: nat, ways: nat, line: nat)
      requires line > 0 && ways > 0
      ensures Valid() && history == [] && this.ways == ways && shift == TrailingZeros(line)
      ensures |sets| == if bytes / line / ways == 0 then 1 else bytes / line / ways
      ensures hits == 0 && misses == 0
    {
      DivBounds(bytes, line);
      DivBounds(bytes / line, ways);
      var count := bytes / line / ways;
      if count == 0 { count := 1; }
      sets := seq(count, i => []);
      this.ways := ways;
      shift := TrailingZeros(line);
      hits, misses := 0, 0;
      history := [];
    }

    /** Where a tag is in a set. */
    static method Position(entries: seq<nat>, line: nat) returns (at: nat)
      ensures at <= |entries| && line !in entries[..at]
      ensures at < |entries| ==> entries[at] == line
      ensures at == |entries| <==> line !in entries
    {
      at := 0;
      while at < |entries| && entries[at] != line
        invariant at <= |entries| && line !in entries[..at]
      {
        at := at + 1;
      }
    }

    /** Reads the line of an address, and says whether it was there: exactly where it is among the `ways` most
      * recently used different lines of its set.
      */
    method Access(address: nat) returns (found: bool)
      requires Valid()
      modifies this
      ensures Valid() && |sets| == |old(sets)| && history == old(history) + [Shr(address, shift)]
      ensures found == Finds(old(history), Shr(address, shift), |sets|, ways)
      ensures found <==> IsRecentInSet(old(history), Shr(address, shift), |sets|, ways)
      ensures hits == old(hits) + if found then 1 else 0
      ensures misses == old(misses) + if found then 0 else 1
    {
      hide Take, Recency, Without, NoDuplicates, IsRecentInSet, InSet, Held, Hits, Finds;
      var line := Shr(address, shift);
      var index := line % |sets|;
      var entries := sets[index];
      FindsWhatIsRecent(history, line, |sets|, ways);
      RecencyHasNoDuplicates(InSet(history, index, |sets|));
      HistoryAfter(history, line, |sets|, ways);
      var at := Position(entries, line);
      if at < |entries| {
        TakeAfterHit(Recency(InSet(history, index, |sets|)), line, ways, at);
        entries := entries[..at] + entries[at + 1..];
        entries := [line] + entries;
        hits := hits + 1;
        found := true;
      } else {
        TakeAfterMiss(Recency(InSet(history, index, |sets|)), line, ways);
        if |entries| == ways { entries := entries[..|entries| - 1]; }
        entries := [line] + entries;
        misses := misses + 1;
        found := false;
      }
      sets := sets[index := entries];
      history := history + [line];
    }
  }

  /** An access changes what its own set holds and what no other set does. */
  lemma HistoryAfter(history: seq<nat>, line: nat, sets: nat, ways: nat)
    requires sets > 0
    ensures var index := line % sets;
      && index < sets
      && Held(history, index, sets, ways) == Take(Recency(InSet(history, index, sets)), ways)
      && (Finds(history, line, sets, ways) <==> line in Held(history, index, sets, ways))
      && Held(history + [line], index, sets, ways)
         == Take([line] + Without(Recency(InSet(history, index, sets)), line), ways)
      && (forall s: nat :: s < sets && s != index ==>
            Held(history + [line], s, sets, ways) == Held(history, s, sets, ways))
      && Hits(history + [line], sets, ways)
            == Hits(history, sets, ways) + if Finds(history, line, sets, ways) then 1 else 0
  {
    var after := history + [line];
    assert after[..|history|] == history;
    RecencyAfter(InSet(history, line % sets, sets), line);
    forall s: nat | s < sets && s != line % sets
      ensures Held(after, s, sets, ways) == Held(history, s, sets, ways)
    {
      assert InSet(after, s, sets) == InSet(history, s, sets);
    }
  }
}
