/** The direct strategy: each timed block of the original track keeps its own tokens, sorted
    by start time, and shows them growing one word at a time. */
module Direct {
  import opened Results
  import opened Text
  import opened Tracks
  import opened Wrapping
  import opened Alignment

  // ---------------------------------------------------------------- sorting by start

  /** Adjacent tokens are in non-decreasing order of their start strings. */
  predicate Sorted(s: seq<TimedToken>) {
    forall i, j :: 0 <= i && j == i + 1 < |s| ==> LexLe(s[i].start, s[j].start)
  }

  /** Inserting `t` behind every token whose start is not after its own: the step of a stable
      insertion sort. */
  function Insert(s: seq<TimedToken>, t: TimedToken): (r: seq<TimedToken>)
    ensures |r| == |s| + 1
    ensures r[|s|] == t || (|s| > 0 && r[|s|] == s[|s| - 1])
    decreases |s|
  {
    if |s| == 0 || LexLe(s[|s| - 1].start, t.start) then s + [t]
    else
      var p := s[..|s| - 1];
      assert s == p + [s[|s| - 1]];
      Insert(p, t) + [s[|s| - 1]]
  }

  /** Python's `sorted(tokens, key=lambda token: token.start)`. */
  function Sort(ts: seq<TimedToken>): (r: seq<TimedToken>)
    ensures |r| == |ts|
    decreases |ts|
  {
    if |ts| == 0 then []
    else
      var p := ts[..|ts| - 1];
      assert ts == p + [ts[|ts| - 1]];
      Insert(Sort(p), ts[|ts| - 1])
  }

  /** Insertion adds `t` and loses nothing. */
  lemma {:induction false} InsertPerm(s: seq<TimedToken>, t: TimedToken)
    ensures multiset(Insert(s, t)) == multiset(s) + multiset{t}
    decreases |s|
  {
    if |s| > 0 && !LexLe(s[|s| - 1].start, t.start) {
      var p, l := s[..|s| - 1], s[|s| - 1];
      assert s == p + [l];
      InsertPerm(p, t);
      assert Insert(s, t) == Insert(p, t) + [l];
    }
  }

  /** The sort is a permutation of its input. */
  lemma {:induction false} SortPerm(ts: seq<TimedToken>)
    ensures multiset(Sort(ts)) == multiset(ts)
    decreases |ts|
  {
    if |ts| > 0 {
      var p, t := ts[..|ts| - 1], ts[|ts| - 1];
      assert ts == p + [t];
      SortPerm(p);
      InsertPerm(Sort(p), t);
    }
  }

  lemma {:induction false} LexLeRefl(a: string)
    ensures LexLe(a, a)
    decreases |a|
  {
    if |a| > 0 {
      LexLeRefl(a[1..]);
    }
  }

  /** Insertion keeps a sorted sequence sorted. */
  lemma {:induction false} InsertSorted(s: seq<TimedToken>, t: TimedToken)
    requires Sorted(s)
    ensures Sorted(Insert(s, t))
    decreases |s|
  {
    if |s| > 0 && !LexLe(s[|s| - 1].start, t.start) {
      var p, l := s[..|s| - 1], s[|s| - 1];
      assert Sorted(p);
      InsertSorted(p, t);
      LexLeTotal(l.start, t.start);
      var q := Insert(p, t);
      assert Insert(s, t) == q + [l];
      if q[|p|] != t {
        assert LexLe(p[|p| - 1].start, l.start);
      }
    } else if |s| > 0 {
      assert Insert(s, t) == s + [t];
    }
  }

  /** The sort yields tokens in order of start time. */
  lemma {:induction false} SortSorted(ts: seq<TimedToken>)
    ensures Sorted(Sort(ts))
    decreases |ts|
  {
    if |ts| > 0 {
      SortSorted(ts[..|ts| - 1]);
      InsertSorted(Sort(ts[..|ts| - 1]), ts[|ts| - 1]);
    }
  }

  /** The tokens starting at `k`, in order. */
  function WithStart(s: seq<TimedToken>, k: string): (r: seq<TimedToken>)
    ensures forall t :: t in r ==> t in s && t.start == k
    decreases |s|
  {
    if |s| == 0 then []
    else (if s[0].start == k then [s[0]] else []) + WithStart(s[1..], k)
  }

  lemma {:induction false} WithStartConcat(a: seq<TimedToken>, b: seq<TimedToken>, k: string)
    ensures WithStart(a + b, k) == WithStart(a, k) + WithStart(b, k)
    decreases |a|
  {
    if |a| == 0 {
      assert a + b == b;
    } else {
      var h := if a[0].start == k then [a[0]] else [];
      assert (a + b)[0] == a[0];
      assert (a + b)[1..] == a[1..] + b;
      WithStartConcat(a[1..], b, k);
      calc {
        WithStart(a + b, k);
        h + WithStart(a[1..] + b, k);
        h + (WithStart(a[1..], k) + WithStart(b, k));
        (h + WithStart(a[1..], k)) + WithStart(b, k);
      }
    }
  }

  /** Insertion puts `t` behind every token with the same start. */
  lemma {:induction false} InsertStable(s: seq<TimedToken>, t: TimedToken, k: string)
    ensures WithStart(Insert(s, t), k) == WithStart(s, k) + WithStart([t], k)
    decreases |s|
  {
    if |s| == 0 || LexLe(s[|s| - 1].start, t.start) {
      WithStartConcat(s, [t], k);
    } else {
      var p, l := s[..|s| - 1], s[|s| - 1];
      InsertStable(p, t, k);
      LexLeRefl(t.start);
      assert s == p + [l];
      assert Insert(s, t) == Insert(p, t) + [l];
      ShiftStable(Insert(p, t), p, l, t, k);
    }
  }

  /** Moving `t` in front of a token `l` with another start keeps each start's tokens in
      order. */
  lemma ShiftStable(q: seq<TimedToken>, p: seq<TimedToken>, l: TimedToken, t: TimedToken, k: string)
    requires l.start != t.start
    requires WithStart(q, k) == WithStart(p, k) + WithStart([t], k)
    ensures WithStart(q + [l], k) == WithStart(p + [l], k) + WithStart([t], k)
  {
    WithStartConcat(q, [l], k);
    WithStartConcat(p, [l], k);
    Single(l, k);
    Single(t, k);
  }

  lemma Single(t: TimedToken, k: string)
    ensures WithStart([t], k) == if t.start == k then [t] else []
  {
    assert [t][1..] == [];
  }

  /** The sort is stable: tokens with equal starts keep their original order. */
  lemma {:induction false} SortStable(ts: seq<TimedToken>, k: string)
    ensures WithStart(Sort(ts), k) == WithStart(ts, k)
    decreases |ts|
  {
    if |ts| > 0 {
      var p, t := ts[..|ts| - 1], ts[|ts| - 1];
      assert ts == p + [t];
      SortStable(p, k);
      InsertStable(Sort(p), t, k);
      WithStartConcat(p, [t], k);
    }
  }

  /** Sorting tokens already in order leaves them as they are. */
  lemma {:induction false} SortKeepsSorted(ts: seq<TimedToken>)
    requires Sorted(ts)
    ensures Sort(ts) == ts
    decreases |ts|
  {
    if |ts| > 0 {
      var p, t := ts[..|ts| - 1], ts[|ts| - 1];
      assert Sorted(p);
      SortKeepsSorted(p);
      if |p| > 0 {
        assert LexLe(p[|p| - 1].start, t.start);
      }
      assert ts == p + [t];
    }
  }

  // ---------------------------------------------------------------- blocks

  /** `Block`: the tokens of one timed block, sorted, with the block's start and end when it
      holds any token; a block without tokens is invalid. */
  datatype Block = Block(tokens: seq<TimedToken>, bounds: Option<(string, string)>) {
    predicate Invalid() { bounds.None? }
  }

  function MakeBlock(ts: seq<TimedToken>): (b: Block)
    ensures b.Invalid() <==> |ts| == 0
    ensures b.tokens == Sort(ts)
    ensures b.bounds.Some? ==> b.bounds.value == (b.tokens[0].start, b.tokens[|ts| - 1].end)
  {
    var s := Sort(ts);
    if |s| == 0 then Block(s, None) else Block(s, Some((s[0].start, s[|s| - 1].end)))
  }

  /** A valid block starts at the earliest start among its tokens. */
  lemma BlockStartsFirst(ts: seq<TimedToken>)
    requires |ts| > 0
    ensures var b := MakeBlock(ts);
      && b.bounds.Some? && b.tokens[0] in ts && b.bounds.value.0 == b.tokens[0].start
      && forall t :: t in ts ==> LexLe(b.bounds.value.0, t.start)
  {
    var s := Sort(ts);
    SortSorted(ts);
    SortPerm(ts);
    assert s[0] in multiset(s);
    SortedFirstLeast(s);
    forall t | t in ts ensures LexLe(s[0].start, t.start) {
      assert t in multiset(s);
      var i :| 0 <= i < |s| && s[i] == t;
    }
  }

  /** In a sorted sequence the first start is the least. */
  lemma {:induction false} SortedFirstLeast(s: seq<TimedToken>)
    requires Sorted(s) && |s| > 0
    ensures forall i :: 0 <= i < |s| ==> LexLe(s[0].start, s[i].start)
  {
    LexLeRefl(s[0].start);
    var i := 1;
    while i < |s|
      invariant 1 <= i <= |s|
      invariant forall j :: 0 <= j < i ==> LexLe(s[0].start, s[j].start)
    {
      LexLeTrans(s[0].start, s[i - 1].start, s[i].start);
      i := i + 1;
    }
  }

  /** The token groups of the timed blocks after the header, one group per block. */
  function GroupsOf(blocks: seq<seq<string>>): (gs: seq<seq<TimedToken>>)
    requires forall b :: b in blocks ==> |b| == 4
    ensures Concat(gs) == TokensOf(blocks)
    decreases |blocks|
  {
    if |blocks| == 0 then []
    else if IsTimingLine(blocks[0][0]) then
      var rest := GroupsOf(blocks[1..]);
      assert ([BlockTokens(blocks[0])] + rest)[1..] == rest;
      [BlockTokens(blocks[0])] + rest
    else GroupsOf(blocks[1..])
  }

  function Concat(gs: seq<seq<TimedToken>>): seq<TimedToken> {
    if |gs| == 0 then [] else gs[0] + Concat(gs[1..])
  }

  /** The blocks the direct strategy builds: block 0 is the header and yields none. */
  function DirectBlocks(blocks: seq<seq<string>>): (bs: seq<Block>)
    requires forall b :: b in blocks ==> |b| == 4
  {
    if |blocks| == 0 then []
    else
      var gs := GroupsOf(blocks[1..]);
      seq(|gs|, k requires 0 <= k < |gs| => MakeBlock(gs[k]))
  }

  // ---------------------------------------------------------------- output

  /** The cues of one block: one per token from `j` on, the text the block's words so far
      followed by a blank. */
  function BlockCues(ts: seq<TimedToken>, j: nat): (cs: seq<Cue>)
    requires j <= |ts|
    ensures |cs| == |ts| - j
    ensures forall m :: 0 <= m < |cs| ==>
      && cs[m].start == ts[j + m].start && cs[m].end == ts[j + m].end
      && cs[m].text == Transcript(ts[..j + m + 1]) + " "
    decreases |ts| - j
  {
    if j == |ts| then []
    else
      var rest := BlockCues(ts, j + 1);
      var cs := [Cue(ts[j].start, ts[j].end, Transcript(ts[..j + 1]) + " ")] + rest;
      assert forall m :: 1 <= m < |cs| ==> cs[m] == rest[m - 1];
      cs
  }

  /** The writing loop of `generate_iterative_subtitles_direct`: invalid blocks are skipped. */
  function CuesOfBlocks(bs: seq<Block>): seq<Cue> {
    if |bs| == 0 then [] else FirstCues(bs) + CuesOfBlocks(bs[1..])
  }

  /** The cues the first block writes: none when it is invalid. */
  function FirstCues(bs: seq<Block>): seq<Cue>
    requires |bs| > 0
  {
    if bs[0].Invalid() then [] else BlockCues(bs[0].tokens, 0)
  }

  /** `generate_iterative_subtitles_direct`. Its duplicate-removal pass builds a list nothing
      reads, so it is not part of this function. Cue `m` belongs to token `m` of the blocks'
      sorted tokens: it carries that token's own times and shows the words of its block up to
      and including it, followed by a blank. */
  function DirectCues(blocks: seq<seq<string>>): (cs: seq<Cue>)
    requires forall b :: b in blocks ==> |b| == 4
    ensures var order := BlockOrder(DirectBlocks(blocks));
      && |cs| == |order|
      && forall m :: 0 <= m < |cs| ==>
        cs[m] == Cue(order[m].start, order[m].end, Transcript(order[BlockFrom(DirectBlocks(blocks), m)..m + 1]) + " ")
  {
    var bs := DirectBlocks(blocks);
    assert EmptyWhenInvalid(bs) by {
      forall k | 0 <= k < |bs| && bs[k].Invalid() ensures |bs[k].tokens| == 0 {
      }
    }
    CuesOfBlocksInOrder(bs);
    CuesOfBlocks(bs)
  }

  /** The tokens of the blocks, block after block: the order their cues are written in. */
  function BlockOrder(bs: seq<Block>): seq<TimedToken> {
    if |bs| == 0 then [] else bs[0].tokens + BlockOrder(bs[1..])
  }

  /** Where, in `BlockOrder(bs)`, the block holding position `m` begins; `m` itself past the
      last block. */
  function BlockFrom(bs: seq<Block>, m: nat): (a: nat)
    ensures a <= m
  {
    if |bs| == 0 then m
    else if m < |bs[0].tokens| then 0
    else |bs[0].tokens| + BlockFrom(bs[1..], m - |bs[0].tokens|)
  }

  /** An invalid block holds no token, as `MakeBlock` builds them. */
  predicate EmptyWhenInvalid(bs: seq<Block>) {
    forall k :: 0 <= k < |bs| && bs[k].Invalid() ==> |bs[k].tokens| == 0
  }

  /** Dropping the first block keeps invalid blocks empty. */
  lemma EmptyWhenInvalidTail(bs: seq<Block>)
    requires |bs| > 0 && EmptyWhenInvalid(bs)
    ensures EmptyWhenInvalid(bs[1..]) && (bs[0].Invalid() ==> |bs[0].tokens| == 0)
  {
    forall k | 0 <= k < |bs| - 1 && bs[1..][k].Invalid() ensures |bs[1..][k].tokens| == 0 {
      assert bs[1..][k] == bs[k + 1];
    }
  }

  /** The blocks write one cue per token they hold. */
  lemma {:induction false} CuesOfBlocksLength(bs: seq<Block>)
    requires EmptyWhenInvalid(bs)
    ensures |CuesOfBlocks(bs)| == |BlockOrder(bs)|
    decreases |bs|
  {
    if |bs| > 0 {
      EmptyWhenInvalidTail(bs);
      CuesOfBlocksLength(bs[1..]);
    }
  }

  /** Cue `m` of `cs` belongs to token `i + m` of `order`: it carries that token's own times
      and shows the words of its block, as `bs` divides the tokens from `i` on, up to and
      including it, followed by a blank. */
  predicate CuesFromBlocks(order: seq<TimedToken>, bs: seq<Block>, i: nat, cs: seq<Cue>) {
    && (|cs| == 0 || i + |cs| <= |order|)
    && forall m :: 0 <= m < |cs| ==>
      cs[m] == Cue(order[i + m].start, order[i + m].end, Transcript(order[i + BlockFrom(bs, m)..i + m + 1]) + " ")
  }

  /** Cue `m` of the blocks belongs to token `m` in block order: it carries that token's own
      times and shows its block's words up to and including it, followed by a blank. */
  lemma {:induction false} CuesOfBlocksInOrder(bs: seq<Block>)
    requires EmptyWhenInvalid(bs)
    ensures |CuesOfBlocks(bs)| == |BlockOrder(bs)|
    ensures var order := BlockOrder(bs);
      forall m :: 0 <= m < |order| ==>
        CuesOfBlocks(bs)[m] == Cue(order[m].start, order[m].end, Transcript(order[BlockFrom(bs, m)..m + 1]) + " ")
  {
    var order := BlockOrder(bs);
    CuesOfBlocksLength(bs);
    assert order[0..|order|] == order;
    CuesOfBlocksFrom(order, bs, 0);
    forall m | 0 <= m < |order|
      ensures CuesOfBlocks(bs)[m] == Cue(order[m].start, order[m].end, Transcript(order[BlockFrom(bs, m)..m + 1]) + " ")
    {
      assert 0 + m == m && 0 + BlockFrom(bs, m) == BlockFrom(bs, m);
    }
  }

  /** Wherever in `order` the blocks' tokens stand, their cues belong to those tokens. */
  lemma {:induction false} CuesOfBlocksFrom(order: seq<TimedToken>, bs: seq<Block>, i: nat)
    requires EmptyWhenInvalid(bs)
    requires i + |BlockOrder(bs)| <= |order| && order[i..i + |BlockOrder(bs)|] == BlockOrder(bs)
    ensures CuesFromBlocks(order, bs, i, CuesOfBlocks(bs))
    decreases |bs|
  {
    if |bs| > 0 {
      EmptyWhenInvalidTail(bs);
      var ts, rest := bs[0].tokens, BlockOrder(bs[1..]);
      SliceParts(order, i, ts, rest);
      CuesOfBlocksFrom(order, bs[1..], i + |ts|);
      CuesFromBlocksCons(order, bs, i, CuesOfBlocks(bs[1..]));
    }
  }

  /** A slice that reads `ts + rest` reads `ts`, then `rest`. */
  lemma {:induction false} SliceParts(order: seq<TimedToken>, i: nat, ts: seq<TimedToken>, rest: seq<TimedToken>)
    requires i + |ts + rest| <= |order| && order[i..i + |ts + rest|] == ts + rest
    ensures order[i..i + |ts|] == ts
    ensures order[i + |ts|..i + |ts| + |rest|] == rest
  {
    var whole := order[i..i + |ts + rest|];
    forall k | 0 <= k < |ts| ensures order[i..i + |ts|][k] == ts[k] {
      assert whole[k] == ts[k];
    }
    forall k | 0 <= k < |rest| ensures order[i + |ts|..i + |ts| + |rest|][k] == rest[k] {
      assert whole[|ts| + k] == rest[k];
    }
  }

  /** The first block's cues, put before the later blocks' cues, belong to their tokens too. */
  lemma {:induction false} CuesFromBlocksCons(order: seq<TimedToken>, bs: seq<Block>, i: nat, tail: seq<Cue>)
    requires |bs| > 0 && (bs[0].Invalid() ==> |bs[0].tokens| == 0)
    requires i + |bs[0].tokens| <= |order| && order[i..i + |bs[0].tokens|] == bs[0].tokens
    requires CuesFromBlocks(order, bs[1..], i + |bs[0].tokens|, tail)
    ensures CuesFromBlocks(order, bs, i, FirstCues(bs) + tail)
  {
    var ts, head := bs[0].tokens, FirstCues(bs);
    var cs := head + tail;
    forall m | 0 <= m < |ts|
      ensures cs[m] == Cue(order[i + m].start, order[i + m].end, Transcript(order[i + BlockFrom(bs, m)..i + m + 1]) + " ")
    {
      FirstBlockCue(order, bs, i, tail, m);
    }
    forall m | |ts| <= m < |cs|
      ensures cs[m] == Cue(order[i + m].start, order[i + m].end, Transcript(order[i + BlockFrom(bs, m)..i + m + 1]) + " ")
    {
      LaterBlockCue(order, bs, i, tail, m);
    }
  }

  /** Cue `m` of the first block belongs to token `i + m`, its block starting at `i`. */
  lemma {:induction false} FirstBlockCue(order: seq<TimedToken>, bs: seq<Block>, i: nat, tail: seq<Cue>, m: nat)
    requires |bs| > 0 && (bs[0].Invalid() ==> |bs[0].tokens| == 0)
    requires i + |bs[0].tokens| <= |order| && order[i..i + |bs[0].tokens|] == bs[0].tokens
    requires m < |bs[0].tokens|
    ensures (FirstCues(bs) + tail)[m]
      == Cue(order[i + m].start, order[i + m].end, Transcript(order[i + BlockFrom(bs, m)..i + m + 1]) + " ")
  {
    var ts := bs[0].tokens;
    var head := BlockCues(ts, 0);
    assert (FirstCues(bs) + tail)[m] == head[m] && BlockFrom(bs, m) == 0;
    assert order[i + m] == ts[m] && order[i..i + m + 1] == ts[..m + 1];
  }

  /** Cue `m` past the first block's cues is cue `m - |bs[0].tokens|` of the later blocks, and
      belongs to token `i + m`. */
  lemma {:induction false} LaterBlockCue(order: seq<TimedToken>, bs: seq<Block>, i: nat, tail: seq<Cue>, m: nat)
    requires |bs| > 0 && (bs[0].Invalid() ==> |bs[0].tokens| == 0)
    requires |bs[0].tokens| <= m < |bs[0].tokens| + |tail| && i + m < |order|
    requires tail[m - |bs[0].tokens|]
      == Cue(order[i + m].start, order[i + m].end,
             Transcript(order[i + |bs[0].tokens| + BlockFrom(bs[1..], m - |bs[0].tokens|)..i + m + 1]) + " ")
    ensures (FirstCues(bs) + tail)[m]
      == Cue(order[i + m].start, order[i + m].end, Transcript(order[i + BlockFrom(bs, m)..i + m + 1]) + " ")
  {
    assert (FirstCues(bs) + tail)[m] == tail[m - |bs[0].tokens|];
    assert BlockFrom(bs, m) == |bs[0].tokens| + BlockFrom(bs[1..], m - |bs[0].tokens|);
  }

  /** Each block keeps its own tokens, sorted: the cue order holds exactly the extracted
      tokens. */
  lemma DirectOrderTokens(blocks: seq<seq<string>>)
    requires forall b :: b in blocks ==> |b| == 4
    ensures multiset(BlockOrder(DirectBlocks(blocks))) == multiset(ExtractTokens(blocks))
    ensures forall k :: 0 <= k < |DirectBlocks(blocks)| ==> Sorted(DirectBlocks(blocks)[k].tokens)
    ensures |blocks| > 0 ==> var gs := GroupsOf(blocks[1..]);
      BlockOrder(DirectBlocks(blocks)) == Concat(seq(|gs|, k requires 0 <= k < |gs| => Sort(gs[k])))
  {
    if |blocks| > 0 {
      var gs := GroupsOf(blocks[1..]);
      OrderOfGroups(gs);
      OrderIsSortedGroups(gs);
      forall k | 0 <= k < |gs| ensures Sorted(MakeBlock(gs[k]).tokens) {
        SortSorted(gs[k]);
      }
    }
  }

  /** The blocks made from groups hold the groups' tokens, each group sorted. */
  lemma {:induction false} OrderOfGroups(gs: seq<seq<TimedToken>>)
    ensures multiset(BlockOrder(seq(|gs|, k requires 0 <= k < |gs| => MakeBlock(gs[k])))) == multiset(Concat(gs))
    decreases |gs|
  {
    if |gs| > 0 {
      var bs := seq(|gs|, k requires 0 <= k < |gs| => MakeBlock(gs[k]));
      var bs' := seq(|gs| - 1, k requires 0 <= k < |gs| - 1 => MakeBlock(gs[1..][k]));
      assert bs[1..] == bs';
      OrderOfGroups(gs[1..]);
      SortPerm(gs[0]);
    }
  }

  /** The blocks made from groups hold, block after block, each group sorted. */
  lemma {:induction false} OrderIsSortedGroups(gs: seq<seq<TimedToken>>)
    ensures BlockOrder(seq(|gs|, k requires 0 <= k < |gs| => MakeBlock(gs[k])))
      == Concat(seq(|gs|, k requires 0 <= k < |gs| => Sort(gs[k])))
    decreases |gs|
  {
    if |gs| > 0 {
      var bs := seq(|gs|, k requires 0 <= k < |gs| => MakeBlock(gs[k]));
      var bs' := seq(|gs| - 1, k requires 0 <= k < |gs| - 1 => MakeBlock(gs[1..][k]));
      var ss := seq(|gs|, k requires 0 <= k < |gs| => Sort(gs[k]));
      var ss' := seq(|gs| - 1, k requires 0 <= k < |gs| - 1 => Sort(gs[1..][k]));
      assert bs[1..] == bs' && ss[1..] == ss';
      OrderIsSortedGroups(gs[1..]);
    }
  }

  /** The blocks made from groups write one cue per token of the groups. */
  lemma {:induction false} CuesOfGroups(gs: seq<seq<TimedToken>>)
    ensures |CuesOfBlocks(seq(|gs|, k requires 0 <= k < |gs| => MakeBlock(gs[k])))| == |Concat(gs)|
    decreases |gs|
  {
    if |gs| > 0 {
      var bs := seq(|gs|, k requires 0 <= k < |gs| => MakeBlock(gs[k]));
      var bs' := seq(|gs| - 1, k requires 0 <= k < |gs| - 1 => MakeBlock(gs[1..][k]));
      assert bs[1..] == bs';
      assert CuesOfBlocks(bs) == FirstCues(bs) + CuesOfBlocks(bs[1..]) && |FirstCues(bs)| == |gs[0]|;
      CuesOfGroups(gs[1..]);
    }
  }

  /** The direct strategy writes one cue per extracted token, duplicates included. */
  lemma DirectCueCount(blocks: seq<seq<string>>)
    requires forall b :: b in blocks ==> |b| == 4
    ensures |DirectCues(blocks)| == |ExtractTokens(blocks)|
  {
    if |blocks| > 0 {
      CuesOfGroups(GroupsOf(blocks[1..]));
    }
  }

  /** Within a block, each cue's text is the previous one's minus its final blank, then the
      next word and two blanks. */
  lemma BlockCueGrows(ts: seq<TimedToken>, m: nat)
    requires m + 1 < |ts|
    ensures BlockCues(ts, 0)[m + 1].text
      == BlockCues(ts, 0)[m].text[..|BlockCues(ts, 0)[m].text| - 1] + ts[m + 1].text + " " + " "
  {
    assert ts[..m + 2] == ts[..m + 1] + [ts[m + 1]];
    TranscriptSnoc(ts[..m + 1], ts[m + 1]);
    var x := Transcript(ts[..m + 1]) + " ";
    assert x[..|x| - 1] == Transcript(ts[..m + 1]);
  }
}
