/** The order-book state kept by the processing task of src-tauri/src/lib.rs:
    the current buy and sell sides, the five-minute history of snapshots, and
    the two operations that change them (appending to the history with its
    sliding-window purge, and replacing the book with a received update). */
module OrderBook {
  import opened Wrappers

  /** Length of the history window, in milliseconds (five minutes). */
  const WINDOW_MS: int := 300_000

  /** One side of the book, price to size; the source keeps it in an ordered
      map keyed by price, so each price appears at most once. */
  type Side = map<real, real>

  /** One level of a received message. The source parses `px` and `sz` from
      text; here each parse result is given, `None` standing for a failure. */
  datatype Level = Level(px: Option<real>, sz: Option<real>, n: int)

  /** The `data` part of a message: group 0 of `levels` is the buy side, every
      further group the sell side. */
  datatype Book = Book(coin: string, levels: seq<seq<Level>>, time: int)

  datatype Message = Message(channel: string, data: Book)

  /** One history entry: the update's timestamp and copies of both sides. */
  datatype Snapshot = Snapshot(ts: int, buy: Side, sell: Side)

  /** Both the price and the size of `l` parsed. */
  predicate Parses(l: Level) {
    l.px.Some? && l.sz.Some?
  }

  // ---------------------------------------------------------------------------
  // Building the book from one message

  /** `m` after inserting every parseable level of `group` in order; an insert
      at a price already present overwrites its size. */
  function Insert(m: Side, group: seq<Level>): Side
    decreases |group|
  {
    if group == [] then m
    else
      var before := Insert(m, group[..|group| - 1]);
      var l := group[|group| - 1];
      if Parses(l) then before[l.px.value := l.sz.value] else before
  }

  /** The buy side built from a message: the parseable levels of group 0. */
  function BuySide(levels: seq<seq<Level>>): Side {
    if levels == [] then map[] else Insert(map[], levels[0])
  }

  /** The sell side built from a message: the parseable levels of groups 1,
      2, ... inserted group after group. */
  function SellSide(levels: seq<seq<Level>>): Side
    decreases |levels|
  {
    if |levels| <= 1 then map[]
    else Insert(SellSide(levels[..|levels| - 1]), levels[|levels| - 1])
  }

  /** Some parseable level of `group` has price `p`. */
  ghost predicate Quotes(group: seq<Level>, p: real) {
    exists k :: 0 <= k < |group| && Parses(group[k]) && group[k].px.value == p
  }

  /** `k` is the last parseable level of `group` at its price. */
  ghost predicate LastAtPrice(group: seq<Level>, k: int) {
    && 0 <= k < |group|
    && Parses(group[k])
    && forall j :: k < j < |group| && Parses(group[j]) ==> group[j].px.value != group[k].px.value
  }

  /** Some group from index 1 on quotes `p`. */
  ghost predicate SellQuotes(levels: seq<seq<Level>>, p: real) {
    exists i :: 1 <= i < |levels| && Quotes(levels[i], p)
  }

  lemma {:induction false} QuotesSplit(group: seq<Level>, p: real)
    requires group != []
    ensures Quotes(group, p) <==>
      Quotes(group[..|group| - 1], p) || (Parses(group[|group| - 1]) && group[|group| - 1].px.value == p)
  {
    var init := group[..|group| - 1];
    if Quotes(group, p) {
      var k :| 0 <= k < |group| && Parses(group[k]) && group[k].px.value == p;
      if k < |group| - 1 {
        assert init[k] == group[k];
      }
    }
    if Quotes(init, p) {
      var k :| 0 <= k < |init| && Parses(init[k]) && init[k].px.value == p;
      assert group[k] == init[k];
    }
  }

  /** A price is in the result exactly when it was already in `m` or some
      parseable level of the group quotes it. */
  lemma {:induction false} InsertKeys(m: Side, group: seq<Level>, p: real)
    ensures p in Insert(m, group) <==> p in m || Quotes(group, p)
    decreases |group|
  {
    if group != [] {
      InsertKeys(m, group[..|group| - 1], p);
      QuotesSplit(group, p);
    }
  }

  /** A price no parseable level quotes keeps the entry it had in `m`. */
  lemma {:induction false} InsertUnquoted(m: Side, group: seq<Level>, p: real)
    requires !Quotes(group, p)
    ensures p in Insert(m, group) <==> p in m
    ensures p in m ==> Insert(m, group)[p] == m[p]
    decreases |group|
  {
    if group != [] {
      QuotesSplit(group, p);
      InsertUnquoted(m, group[..|group| - 1], p);
    }
  }

  /** The last parseable level at a price decides that price's size: a later
      level at the same price overwrites an earlier one. */
  lemma {:induction false} InsertLastWins(m: Side, group: seq<Level>, k: int)
    requires LastAtPrice(group, k)
    ensures group[k].px.value in Insert(m, group)
    ensures Insert(m, group)[group[k].px.value] == group[k].sz.value
    decreases |group|
  {
    var n := |group| - 1;
    if k < n {
      var init := group[..n];
      assert LastAtPrice(init, k) by {
        forall j | k < j < |init| && Parses(init[j])
          ensures init[j].px.value != init[k].px.value
        {
          assert init[j] == group[j];
        }
      }
      InsertLastWins(m, init, k);
    }
  }

  /** A level whose price or size failed to parse changes nothing: dropping it
      from anywhere in the group gives the same side. */
  lemma {:induction false} InsertSkipsUnparsed(m: Side, a: seq<Level>, bad: Level, b: seq<Level>)
    requires !Parses(bad)
    ensures Insert(m, a + [bad] + b) == Insert(m, a + b)
    decreases |b|
  {
    var whole := a + [bad] + b;
    if b == [] {
      assert whole[..|whole| - 1] == a;
      assert a + b == a;
    } else {
      var b' := b[..|b| - 1];
      InsertSkipsUnparsed(m, a, bad, b');
      assert whole[..|whole| - 1] == a + [bad] + b';
      assert (a + b)[..|a + b| - 1] == a + b';
    }
  }

  /** The buy side holds exactly the prices quoted by parseable levels of
      group 0; nothing of any earlier book is involved. */
  lemma BuySideKeys(levels: seq<seq<Level>>, p: real)
    ensures p in BuySide(levels) <==> |levels| > 0 && Quotes(levels[0], p)
  {
    if levels != [] {
      InsertKeys(map[], levels[0], p);
    }
  }

  /** Each buy price carries the size of the last parseable level of group 0
      at that price. */
  lemma BuySideValue(levels: seq<seq<Level>>, k: int)
    requires |levels| > 0 && LastAtPrice(levels[0], k)
    ensures levels[0][k].px.value in BuySide(levels)
    ensures BuySide(levels)[levels[0][k].px.value] == levels[0][k].sz.value
  {
    InsertLastWins(map[], levels[0], k);
  }

  /** The sell side holds exactly the prices quoted by parseable levels of the
      groups from index 1 on. */
  lemma {:induction false} SellSideKeys(levels: seq<seq<Level>>, p: real)
    ensures p in SellSide(levels) <==> SellQuotes(levels, p)
    decreases |levels|
  {
    if |levels| > 1 {
      var n := |levels| - 1;
      var init := levels[..n];
      SellSideKeys(init, p);
      InsertKeys(SellSide(init), levels[n], p);
      if SellQuotes(levels, p) && !Quotes(levels[n], p) {
        var i :| 1 <= i < |levels| && Quotes(levels[i], p);
        assert init[i] == levels[i];
      }
      if SellQuotes(init, p) {
        var i :| 1 <= i < |init| && Quotes(init[i], p);
        assert levels[i] == init[i];
      }
    }
  }

  /** Each sell price carries the size of the last parseable level at that
      price in the last group that quotes it. */
  lemma {:induction false} SellSideValue(levels: seq<seq<Level>>, i: int, k: int)
    requires 1 <= i < |levels| && LastAtPrice(levels[i], k)
    requires forall g :: i < g < |levels| ==> !Quotes(levels[g], levels[i][k].px.value)
    ensures levels[i][k].px.value in SellSide(levels)
    ensures SellSide(levels)[levels[i][k].px.value] == levels[i][k].sz.value
    decreases |levels|
  {
    var n := |levels| - 1;
    var init := levels[..n];
    if i == n {
      InsertLastWins(SellSide(init), levels[n], k);
    } else {
      assert init[i] == levels[i];
      forall g | i < g < |init|
        ensures !Quotes(init[g], init[i][k].px.value)
      {
        assert init[g] == levels[g];
      }
      SellSideValue(init, i, k);
      InsertUnquoted(SellSide(init), levels[n], levels[i][k].px.value);
    }
  }

  // ---------------------------------------------------------------------------
  // The history window

  /** The entries of `h` newer than `cutoff`, in their original order. */
  function Retained(h: seq<Snapshot>, cutoff: int): seq<Snapshot>
    decreases |h|
  {
    if h == [] then []
    else (if h[0].ts > cutoff then [h[0]] else []) + Retained(h[1..], cutoff)
  }

  /** The entries of `h` at or before `cutoff`, the ones the purge drops. */
  function Purged(h: seq<Snapshot>, cutoff: int): seq<Snapshot>
    decreases |h|
  {
    if h == [] then []
    else (if h[0].ts <= cutoff then [h[0]] else []) + Purged(h[1..], cutoff)
  }

  /** Every entry is newer than the last entry's timestamp minus the window. */
  ghost predicate InWindow(h: seq<Snapshot>) {
    |h| > 0 ==> forall k :: 0 <= k < |h| ==> h[k].ts > h[|h| - 1].ts - WINDOW_MS
  }

  /** Timestamps never decrease along the history. */
  ghost predicate Chronological(h: seq<Snapshot>) {
    forall i, j :: 0 <= i < j < |h| ==> h[i].ts <= h[j].ts
  }

  /** The history after one update: the new entry appended, then every entry
      at or before the new timestamp minus the window dropped. */
  function Pushed(h: seq<Snapshot>, s: Snapshot): seq<Snapshot> {
    Retained(h + [s], s.ts - WINDOW_MS)
  }

  /** Filtering distributes over concatenation, so the purge keeps the
      relative order of the entries it keeps. */
  lemma {:induction false} RetainedConcat(a: seq<Snapshot>, b: seq<Snapshot>, cutoff: int)
    ensures Retained(a + b, cutoff) == Retained(a, cutoff) + Retained(b, cutoff)
    decreases |a|
  {
    if a == [] {
      assert a + b == b;
    } else {
      assert (a + b)[0] == a[0];
      assert (a + b)[1..] == a[1..] + b;
      RetainedConcat(a[1..], b, cutoff);
    }
  }

  /** An entry survives the purge exactly when it was there and is newer than
      the cutoff. */
  lemma {:induction false} RetainedMembers(h: seq<Snapshot>, cutoff: int, e: Snapshot)
    ensures e in Retained(h, cutoff) <==> e in h && e.ts > cutoff
    decreases |h|
  {
    if h != [] {
      RetainedMembers(h[1..], cutoff, e);
      assert h == [h[0]] + h[1..];
    }
  }

  /** An entry is purged exactly when it was there and is not newer than the
      cutoff. */
  lemma {:induction false} PurgedMembers(h: seq<Snapshot>, cutoff: int, e: Snapshot)
    ensures e in Purged(h, cutoff) <==> e in h && e.ts <= cutoff
    decreases |h|
  {
    if h != [] {
      PurgedMembers(h[1..], cutoff, e);
      assert h == [h[0]] + h[1..];
    }
  }

  /** The purge splits the history: what is kept and what is dropped together
      make up the old history, entry for entry; nothing else is removed. */
  lemma {:induction false} RetainedPartition(h: seq<Snapshot>, cutoff: int)
    ensures multiset(Retained(h, cutoff)) + multiset(Purged(h, cutoff)) == multiset(h)
    ensures |Retained(h, cutoff)| + |Purged(h, cutoff)| == |h|
    decreases |h|
  {
    if h != [] {
      RetainedPartition(h[1..], cutoff);
      assert h == [h[0]] + h[1..];
      assert multiset(h) == multiset([h[0]]) + multiset(h[1..]);
    }
  }

  /** The purge keeps a chronological history chronological. */
  lemma {:induction false} RetainedChronological(h: seq<Snapshot>, cutoff: int)
    requires Chronological(h)
    ensures Chronological(Retained(h, cutoff))
    decreases |h|
  {
    if h != [] {
      var tail := Retained(h[1..], cutoff);
      RetainedChronological(h[1..], cutoff);
      if h[0].ts > cutoff {
        forall j | 0 <= j < |tail|
          ensures h[0].ts <= tail[j].ts
        {
          RetainedMembers(h[1..], cutoff, tail[j]);
          var k :| 0 <= k < |h[1..]| && h[1..][k] == tail[j];
          assert h[k + 1] == tail[j];
        }
      }
    }
  }

  /** After an update the new entry is the last one, every entry is newer than
      its timestamp minus the window, and the history grew by at most one. */
  lemma PushedWindow(h: seq<Snapshot>, s: Snapshot)
    ensures var r := Pushed(h, s);
      && |r| > 0 && r[|r| - 1] == s
      && (forall k :: 0 <= k < |r| ==> r[k].ts > s.ts - WINDOW_MS)
      && InWindow(r)
      && |r| <= |h| + 1
  {
    var cutoff := s.ts - WINDOW_MS;
    var r := Pushed(h, s);
    RetainedConcat(h, [s], cutoff);
    assert Retained([s], cutoff) == [s];
    forall k | 0 <= k < |r|
      ensures r[k].ts > cutoff
    {
      RetainedMembers(h + [s], cutoff, r[k]);
    }
    RetainedPartition(h, cutoff);
  }

  /** A prior entry is kept by an update at `s.ts` exactly when its timestamp
      is after `s.ts` minus the window. */
  lemma PushedKeeps(h: seq<Snapshot>, s: Snapshot, e: Snapshot)
    requires e in h
    ensures e in Pushed(h, s) <==> e.ts > s.ts - WINDOW_MS
  {
    RetainedMembers(h + [s], s.ts - WINDOW_MS, e);
  }

  /** Updates arriving in timestamp order keep the history chronological. */
  lemma InOrderPushChronological(h: seq<Snapshot>, s: Snapshot)
    requires Chronological(h)
    requires h == [] || h[|h| - 1].ts <= s.ts
    ensures Chronological(Pushed(h, s))
  {
    assert Chronological(h + [s]);
    RetainedChronological(h + [s], s.ts - WINDOW_MS);
  }

  /** The cutoff is taken from the timestamp just pushed, not the largest one
      seen: after an out-of-order update, an entry stamped later than it stays
      in the history ahead of it, so the history is no longer chronological. */
  lemma OutOfOrderPushKeepsLaterEntry(h: seq<Snapshot>, s: Snapshot, e: Snapshot)
    requires e in h && e.ts > s.ts
    ensures e in Pushed(h, s)
    ensures !Chronological(Pushed(h, s))
  {
    var r := Pushed(h, s);
    PushedKeeps(h, s, e);
    PushedWindow(h, s);
    var k :| 0 <= k < |r| && r[k] == e;
    assert k != |r| - 1;
  }

  /** Two updates more than a window apart: the second purges the first. */
  lemma SecondUpdatePurgesFirst(b1: Side, s1: Side, b2: Side, s2: Side)
    ensures Pushed(Pushed([], Snapshot(1000, b1, s1)), Snapshot(301_500, b2, s2))
         == [Snapshot(301_500, b2, s2)]
  {
    var first := Snapshot(1000, b1, s1);
    var second := Snapshot(301_500, b2, s2);
    var none: seq<Snapshot> := [];
    assert Pushed(none, first) == [first] by {
      assert none + [first] == [first];
      assert [first][1..] == none;
      assert Retained([first], first.ts - WINDOW_MS) == [first] + Retained(none, first.ts - WINDOW_MS);
    }
    assert [first] + [second] == [first, second];
    assert [first, second][1..] == [second];
    assert [second][1..] == none;
    assert Retained([second], second.ts - WINDOW_MS) == [second] + Retained(none, second.ts - WINDOW_MS);
    assert Retained([first, second], second.ts - WINDOW_MS) == Retained([second], second.ts - WINDOW_MS);
  }

  // ---------------------------------------------------------------------------
  // The state object

  /** The history after applying `msgs` in order to a state whose history was
      `h`. */
  function HistoryAfter(h: seq<Snapshot>, msgs: seq<Message>): seq<Snapshot>
    decreases |msgs|
  {
    if msgs == [] then h
    else
      var m := msgs[|msgs| - 1].data;
      Pushed(HistoryAfter(h, msgs[..|msgs| - 1]), Snapshot(m.time, BuySide(m.levels), SellSide(m.levels)))
  }

  class OrderBookState {
    var buy: Side
    var sell: Side
    var history: seq<Snapshot>

    /** The window invariant every update re-establishes. */
    ghost predicate Valid()
      reads this
    {
      InWindow(history)
    }

    /** A state with empty sides and an empty history. */
    constructor ()
      ensures buy == map[] && sell == map[] && history == []
      ensures Valid()
    {
      buy := map[];
      sell := map[];
      history := [];
    }

    /** Appends a snapshot of the current sides at `timestamp`, then keeps only
        the entries newer than `timestamp` minus the window. */
    method UpdateHistory(timestamp: int)
      modifies this
      ensures buy == old(buy) && sell == old(sell)
      ensures history == Pushed(old(history), Snapshot(timestamp, buy, sell))
      ensures |history| > 0 && history[|history| - 1] == Snapshot(timestamp, buy, sell)
      ensures Valid()
    {
      history := history + [Snapshot(timestamp, buy, sell)];
      var cutoff := timestamp - WINDOW_MS;
      var kept: seq<Snapshot> := [];
      var i := 0;
      while i < |history|
        invariant 0 <= i <= |history|
        invariant buy == old(buy) && sell == old(sell)
        invariant history == old(history) + [Snapshot(timestamp, buy, sell)]
        invariant kept == Retained(history[..i], cutoff)
      {
        RetainedConcat(history[..i], [history[i]], cutoff);
        assert history[..i + 1] == history[..i] + [history[i]];
        if history[i].ts > cutoff {
          kept := kept + [history[i]];
        }
        i := i + 1;
      }
      assert history[..|history|] == history;
      PushedWindow(old(history), Snapshot(timestamp, buy, sell));
      history := kept;
    }

    /** Replaces both sides by the levels of `msg` (group 0 to buy, the other
        groups to sell, unparseable levels skipped) and records the result in
        the history at the message's timestamp. */
    method ApplyUpdate(msg: Message)
      modifies this
      ensures buy == BuySide(msg.data.levels) && sell == SellSide(msg.data.levels)
      ensures history == Pushed(old(history), Snapshot(msg.data.time, buy, sell))
      ensures Valid()
    {
      buy := map[];
      sell := map[];
      var levels := msg.data.levels;
      var i := 0;
      while i < |levels|
        invariant 0 <= i <= |levels|
        invariant history == old(history)
        invariant buy == BuySide(levels[..i]) && sell == SellSide(levels[..i])
      {
        var group := levels[i];
        var j := 0;
        while j < |group|
          invariant 0 <= j <= |group|
          invariant history == old(history)
          invariant i == 0 ==> buy == Insert(map[], group[..j]) && sell == map[]
          invariant i > 0 ==> buy == BuySide(levels[..i]) && sell == Insert(SellSide(levels[..i]), group[..j])
        {
          var level := group[j];
          assert group[..j + 1][..j] == group[..j];
          match (level.px, level.sz) {
            case (Some(price), Some(size)) =>
              if i == 0 {
                buy := buy[price := size];
              } else {
                sell := sell[price := size];
              }
            case _ =>
          }
          j := j + 1;
        }
        assert group[..|group|] == group;
        assert levels[..i + 1][..i] == levels[..i];
        i := i + 1;
      }
      assert levels[..|levels|] == levels;
      UpdateHistory(msg.data.time);
    }

    /** The processing loop: applies each received message in turn. The sides
        end up equal to the last message's levels alone. */
    method ProcessMessages(msgs: seq<Message>)
      requires Valid()
      modifies this
      ensures msgs != [] ==>
        buy == BuySide(msgs[|msgs| - 1].data.levels) && sell == SellSide(msgs[|msgs| - 1].data.levels)
      ensures msgs == [] ==> buy == old(buy) && sell == old(sell)
      ensures history == HistoryAfter(old(history), msgs)
      ensures Valid()
    {
      var i := 0;
      while i < |msgs|
        invariant 0 <= i <= |msgs|
        invariant i > 0 ==> buy == BuySide(msgs[i - 1].data.levels) && sell == SellSide(msgs[i - 1].data.levels)
        invariant i == 0 ==> buy == old(buy) && sell == old(sell)
        invariant history == HistoryAfter(old(history), msgs[..i])
        invariant Valid()
      {
        ApplyUpdate(msgs[i]);
        assert msgs[..i + 1][..i] == msgs[..i];
        i := i + 1;
      }
      assert msgs[..|msgs|] == msgs;
    }
  }

  /** One bid at 10 for 5 and one ask at 11 for 3 give exactly those two
      sides. */
  lemma ExampleUpdate()
    ensures var levels := [[Level(Some(10.0), Some(5.0), 1)], [Level(Some(11.0), Some(3.0), 1)]];
      BuySide(levels) == map[10.0 := 5.0] && SellSide(levels) == map[11.0 := 3.0]
  {
    var levels := [[Level(Some(10.0), Some(5.0), 1)], [Level(Some(11.0), Some(3.0), 1)]];
    assert levels[..1] == [levels[0]];
    assert [levels[0][0]][..0] == [];
    assert [levels[1][0]][..0] == [];
  }

  /** An empty group 0 gives an empty buy side, whatever the sell groups hold;
      a parseable level in group 1 makes the sell side non-empty. */
  lemma EmptyBuyGroup(levels: seq<seq<Level>>, k: int)
    requires |levels| >= 2 && levels[0] == []
    requires 0 <= k < |levels[1]| && Parses(levels[1][k])
    ensures BuySide(levels) == map[]
    ensures levels[1][k].px.value in SellSide(levels)
  {
    SellSideKeys(levels, levels[1][k].px.value);
  }
}
