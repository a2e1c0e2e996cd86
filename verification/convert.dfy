/** The whole conversion: from the lines of an auto-generated track to the text of the three
    re-timed tracks, and the shape of what gets written. */
module Convert {
  import opened Results
  import opened Text
  import opened Tracks
  import opened Wrapping
  import opened Alignment
  import opened Direct

  // ---------------------------------------------------------------- writing cues

  /** One cue as written: `start --> end `, the text, then two empty lines. */
  function CueBlock(c: Cue): string {
    c.start + " --> " + c.end + " \n" + c.text + "\n\n\n"
  }

  function CueBlocks(cs: seq<Cue>): string {
    if |cs| == 0 then "" else CueBlock(cs[0]) + CueBlocks(cs[1..])
  }

  /** An output file: the header of the original track, a line break, then every cue. */
  function Render(header: string, cs: seq<Cue>): (out: string)
    ensures StartsWith(out, header + "\n")
  {
    var out := header + "\n" + CueBlocks(cs);
    assert out[..|header + "\n"|] == header + "\n";
    out
  }

  /** Writing one more cue appends its block to the file. */
  lemma {:induction false} RenderAppend(header: string, cs: seq<Cue>, c: Cue)
    ensures Render(header, cs + [c]) == Render(header, cs) + CueBlock(c)
  {
    CueBlocksAppend(cs, c);
  }

  lemma {:induction false} CueBlocksAppend(cs: seq<Cue>, c: Cue)
    ensures CueBlocks(cs + [c]) == CueBlocks(cs) + CueBlock(c)
    decreases |cs|
  {
    if |cs| == 0 {
      assert [c][1..] == [];
    } else {
      assert (cs + [c])[1..] == cs[1..] + [c];
      CueBlocksAppend(cs[1..], c);
    }
  }

  /** A cue timed by two bare timestamps is written under a line the block-start pattern of
      the extractor recognises, and its times read back from the fixed columns. */
  lemma CueBlockTimed(c: Cue)
    requires IsClock(c.start) && IsClock(c.end)
    ensures IsTimingLine(CueBlock(c))
    ensures CueBlock(c)[..12] == c.start && CueBlock(c)[17..29] == c.end
  {
    var b := CueBlock(c);
    assert b[..12] == c.start;
    assert b[12..17] == " --> ";
    assert b[17..29] == c.end;
    forall k | 0 <= k < 12 ensures b[k] == c.start[k] && b[17 + k] == c.end[k] {
      assert b[..12][k] == b[k];
      assert b[17..29][k] == b[17 + k];
    }
  }

  // ---------------------------------------------------------------- timed cues

  /** Every token carries two bare timestamps. */
  predicate Clocked(ts: seq<TimedToken>) {
    forall t :: t in ts ==> IsClock(t.start) && IsClock(t.end)
  }

  /** Every cue carries two bare timestamps. */
  predicate CuesClocked(cs: seq<Cue>) {
    forall c :: c in cs ==> IsClock(c.start) && IsClock(c.end)
  }

  lemma NonIterativeClocked(lines: seq<string>, toks: seq<TimedToken>)
    requires Clocked(toks) && NonIterativeCues(lines, toks).Ok?
    ensures CuesClocked(NonIterativeCues(lines, toks).value)
  {
    var cs := NonIterativeCues(lines, toks).value;
    var sp := LineSpans(lines, toks).value;
    NonIterativeTimes(lines, toks);
    forall c | c in cs ensures IsClock(c.start) && IsClock(c.end) {
      var k :| 0 <= k < |cs| && cs[k] == c;
      assert toks[sp[k].from] in toks && toks[sp[k].to - 1] in toks;
    }
  }

  lemma {:induction false} LineCuesClocked(toks: seq<TimedToken>, sp: seq<Span>)
    requires Clocked(toks)
    requires forall k :: 0 <= k < |sp| ==> sp[k].from <= sp[k].to <= |toks|
    ensures CuesClocked(AllLineCues(toks, sp))
    decreases |sp|
  {
    if |sp| > 0 {
      var here := RunCues(toks, sp[0].from, sp[0].from, sp[0].to);
      forall c | c in here ensures IsClock(c.start) && IsClock(c.end) {
        var m :| 0 <= m < |here| && here[m] == c;
        assert toks[sp[0].from + m] in toks;
      }
      LineCuesClocked(toks, sp[1..]);
    }
  }

  lemma IterativeClocked(lines: seq<string>, toks: seq<TimedToken>)
    requires Clocked(toks) && IterativeCues(lines, toks).Ok?
    ensures CuesClocked(IterativeCues(lines, toks).value)
  {
    LineCuesClocked(toks, LineSpans(lines, toks).value);
  }

  lemma BlockCuesClocked(ts: seq<TimedToken>)
    requires Clocked(ts)
    ensures CuesClocked(BlockCues(Sort(ts), 0))
  {
    var s := Sort(ts);
    SortPerm(ts);
    var cs := BlockCues(s, 0);
    forall c | c in cs ensures IsClock(c.start) && IsClock(c.end) {
      var m :| 0 <= m < |cs| && cs[m] == c;
      assert s[m] in multiset(ts);
    }
  }

  lemma {:induction false} GroupCuesClocked(gs: seq<seq<TimedToken>>)
    requires forall g :: g in gs ==> Clocked(g)
    ensures CuesClocked(CuesOfBlocks(seq(|gs|, k requires 0 <= k < |gs| => MakeBlock(gs[k]))))
    decreases |gs|
  {
    if |gs| > 0 {
      var bs := seq(|gs|, k requires 0 <= k < |gs| => MakeBlock(gs[k]));
      var bs' := seq(|gs| - 1, k requires 0 <= k < |gs| - 1 => MakeBlock(gs[1..][k]));
      assert bs[1..] == bs';
      assert gs[0] in gs;
      BlockCuesClocked(gs[0]);
      GroupCuesClocked(gs[1..]);
    }
  }

  /** The groups of a track's blocks hold only tokens with bare timestamps. */
  lemma {:induction false} GroupsClocked(blocks: seq<seq<string>>)
    requires forall b :: b in blocks ==> |b| == 4
    ensures forall g :: g in GroupsOf(blocks) ==> Clocked(g)
    decreases |blocks|
  {
    if |blocks| > 0 {
      GroupsClocked(blocks[1..]);
    }
  }

  lemma DirectClocked(blocks: seq<seq<string>>)
    requires forall b :: b in blocks ==> |b| == 4
    ensures CuesClocked(DirectCues(blocks))
  {
    if |blocks| > 0 {
      GroupsClocked(blocks[1..]);
      GroupCuesClocked(GroupsOf(blocks[1..]));
    }
  }

  // ---------------------------------------------------------------- the three outputs

  /** `_get_token_list` and `_get_caption_lines` on the lines of a track. */
  function Captions(lines: seq<string>, restore: string -> string): seq<string> {
    CaptionLines(TokenList(lines), restore)
  }

  /** The `.reformatted.non-iterative` track, or the error that stops it. */
  function NonIterativeTrack(lines: seq<string>, header: string, restore: string -> string): (r: Result<string, AlignError>)
    ensures LineSpans(Captions(lines, restore), TokenList(lines)).Err? ==> r == Err(OutOfTokens)
    ensures r.Ok? ==> StartsWith(r.value, header + "\n")
  {
    match NonIterativeCues(Captions(lines, restore), TokenList(lines))
    case Err(e) => Err(e)
    case Ok(cs) => Ok(Render(header, cs))
  }

  /** The `.reformatted.iterative` track, or the error that stops it. */
  function IterativeTrack(lines: seq<string>, header: string, restore: string -> string): (r: Result<string, AlignError>)
    ensures r.Err? <==> LineSpans(Captions(lines, restore), TokenList(lines)).Err?
    ensures r.Err? ==> r.error == OutOfTokens
    ensures r.Ok? ==> StartsWith(r.value, header + "\n")
  {
    match IterativeCues(Captions(lines, restore), TokenList(lines))
    case Err(e) => Err(e)
    case Ok(cs) => Ok(Render(header, cs))
  }

  /** The `.direct.iterative` track. */
  function DirectTrack(lines: seq<string>, header: string): (r: string)
    ensures StartsWith(r, header + "\n")
  {
    Render(header, DirectCues(FourLineBlocks(lines)))
  }

  /** Every cue of the three outputs is written under a timing line with bare timestamps. */
  lemma TracksTimed(lines: seq<string>, restore: string -> string)
    ensures var cs := NonIterativeCues(Captions(lines, restore), TokenList(lines));
      cs.Ok? ==> forall c :: c in cs.value ==> IsTimingLine(CueBlock(c))
    ensures var cs := IterativeCues(Captions(lines, restore), TokenList(lines));
      cs.Ok? ==> forall c :: c in cs.value ==> IsTimingLine(CueBlock(c))
    ensures forall c :: c in DirectCues(FourLineBlocks(lines)) ==> IsTimingLine(CueBlock(c))
  {
    var toks, caps := TokenList(lines), Captions(lines, restore);
    TokenListWellFormed(lines);
    if NonIterativeCues(caps, toks).Ok? {
      NonIterativeClocked(caps, toks);
      forall c | c in NonIterativeCues(caps, toks).value ensures IsTimingLine(CueBlock(c)) {
        CueBlockTimed(c);
      }
    }
    if IterativeCues(caps, toks).Ok? {
      IterativeClocked(caps, toks);
      forall c | c in IterativeCues(caps, toks).value ensures IsTimingLine(CueBlock(c)) {
        CueBlockTimed(c);
      }
    }
    DirectClocked(FourLineBlocks(lines));
    forall c | c in DirectCues(FourLineBlocks(lines)) ensures IsTimingLine(CueBlock(c)) {
      CueBlockTimed(c);
    }
  }
}
