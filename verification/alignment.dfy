/** Re-timing caption lines against the token stream: the shared consumption loop and the
    non-iterative and iterative reformatting strategies. */
module Alignment {
  import opened Results
  import opened Text
  import opened Tracks
  import opened Wrapping

  /** The punctuation `_clean_string` removes: `[;:!?.,-]`. */
  const CleanChars: set<char> := {';', ':', '!', '?', '.', ',', '-'}

  /** The entity every output line has replaced by a blank. */
  const Nbsp: string := "&nbsp"

  /** `_clean_string`: strip, then drop the punctuation. The visible characters left are
      those of `s` that are not punctuation, in order. */
  function Clean(s: string): (r: string)
    ensures Avoids(r, CleanChars)
    ensures |r| <= |s|
    ensures Unspaced(r) == RemoveChars(Unspaced(s), CleanChars)
  {
    StripUnspaced(s);
    KeepSwap(Strip(s), IsVisible, c => c !in CleanChars);
    RemoveChars(Strip(s), CleanChars)
  }

  /** A word without blanks or punctuation is its own cleaned form, so the consumption loop
      compares such words unchanged. */
  lemma CleanPlain(w: string)
    requires Unbroken(w) && Avoids(w, CleanChars)
    ensures Clean(w) == w
  {
    StripUnbroken(w);
    KeepAll(w, c => c !in CleanChars);
  }

  /** The cleaned word of every token: what the consumption loop compares with. */
  function CleanTexts(ts: seq<TimedToken>): (ws: seq<string>)
    ensures |ws| == |ts| && forall m :: 0 <= m < |ts| ==> ws[m] == Clean(ts[m].text)
  {
    seq(|ts|, m requires 0 <= m < |ts| => Clean(ts[m].text))
  }

  // ---------------------------------------------------------------- consumption

  /** The `while` loop both reformatting strategies share, over the tokens' cleaned words `cw`:
      starting at token `i`, keep taking tokens while the rest of the cleaned line starts
      with the token's word, cutting the word and one more character off the line each
      time, and stop after the last token. Yields the index of the first token not taken. */
  function Consume(lc: string, cw: seq<string>, i: nat): (j: nat)
    requires i < |cw|
    ensures i <= j <= |cw|
    ensures j > i <==> StartsWith(lc, cw[i])
    decreases |cw| - i
  {
    if !StartsWith(lc, cw[i]) then i
    else if i + 1 >= |cw| then i + 1
    else Consume(Drop(lc, |cw[i]| + 1), cw, i + 1)
  }

  /** The first word of a joined line leads it, and cutting it and its blank leaves the rest. */
  lemma JoinHead(ws: seq<string>)
    requires |ws| >= 1
    ensures StartsWith(Join(ws, ' '), ws[0])
    ensures |ws| == 1 ==> Drop(Join(ws, ' '), |ws[0]| + 1) == ""
    ensures |ws| >= 2 ==> Drop(Join(ws, ' '), |ws[0]| + 1) == Join(ws[1..], ' ')
  {
    var line := Join(ws, ' ');
    if |ws| >= 2 {
      assert line == ws[0] + [' '] + Join(ws[1..], ' ');
      assert line[..|ws[0]|] == ws[0];
    } else {
      assert line == ws[0];
    }
  }

  /** A token whose word leads the line is taken, and consumption goes on after it. */
  lemma ConsumeStep(lc: string, cw: seq<string>, i: nat)
    requires i + 1 < |cw| && StartsWith(lc, cw[i])
    ensures Consume(lc, cw, i) == Consume(Drop(lc, |cw[i]| + 1), cw, i + 1)
  {
  }

  /** A line that does not start with the token's word takes nothing. */
  lemma ConsumeStop(lc: string, cw: seq<string>, i: nat)
    requires i < |cw| && !StartsWith(lc, cw[i])
    ensures Consume(lc, cw, i) == i
  {
  }

  /** The last token, when its word leads the line, is taken. */
  lemma ConsumeLast(lc: string, cw: seq<string>, i: nat)
    requires i + 1 == |cw| && StartsWith(lc, cw[i])
    ensures Consume(lc, cw, i) == |cw|
  {
  }

  /** A line written as the blank-joined words of tokens `i .. j` takes exactly those tokens,
      when the word after them is not empty. */
  lemma ConsumeExact(cw: seq<string>, i: nat, j: nat)
    requires i < j <= |cw|
    requires j < |cw| ==> cw[j] != ""
    ensures Consume(Join(cw[i..j], ' '), cw, i) == j
  {
    ConsumeJoined(cw, i, cw[i..j]);
  }

  lemma {:induction false} ConsumeJoined(cw: seq<string>, i: nat, ws: seq<string>)
    requires 1 <= |ws| && i + |ws| <= |cw| && cw[i..i + |ws|] == ws
    requires i + |ws| < |cw| ==> cw[i + |ws|] != ""
    ensures Consume(Join(ws, ' '), cw, i) == i + |ws|
    decreases |ws|
  {
    assert ws[0] == cw[i];
    if |ws| == 1 {
      ConsumeJoinedOne(cw, i, ws);
    } else {
      assert cw[i + 1..i + |ws|] == ws[1..];
      ConsumeJoined(cw, i + 1, ws[1..]);
      ConsumeJoinedStep(cw, i, ws);
    }
  }

  /** One word: the token is taken, and the next one finds nothing left. */
  lemma ConsumeJoinedOne(cw: seq<string>, i: nat, ws: seq<string>)
    requires |ws| == 1 && i < |cw| && ws[0] == cw[i]
    requires i + 1 < |cw| ==> cw[i + 1] != ""
    ensures Consume(Join(ws, ' '), cw, i) == i + 1
  {
    var line := Join(ws, ' ');
    JoinHead(ws);
    if i + 1 == |cw| {
      ConsumeLast(line, cw, i);
    } else {
      ConsumeStep(line, cw, i);
      ConsumeStop("", cw, i + 1);
    }
  }

  /** More words: the first token is taken and the rest of the line is the rest joined. */
  lemma ConsumeJoinedStep(cw: seq<string>, i: nat, ws: seq<string>)
    requires 2 <= |ws| && i + 1 < |cw| && ws[0] == cw[i]
    requires Consume(Join(ws[1..], ' '), cw, i + 1) == i + |ws|
    ensures Consume(Join(ws, ' '), cw, i) == i + |ws|
  {
    JoinHead(ws);
    ConsumeStep(Join(ws, ' '), cw, i);
  }

  /** The tokens a caption line took: indexes `from .. to`. */
  datatype Span = Span(from: nat, to: nat)

  /** What stops a reformatting run: the token list ran out while lines remained (Python's
      `IndexError`), or line `line` (counted from 1) got no time. */
  datatype AlignError = OutOfTokens | MissingTime(line: nat)

  /** The spans form a chain through `n` tokens that starts at `i`, each starting at an
      existing token. */
  predicate Chain(sp: seq<Span>, i: nat, n: nat) {
    && (|sp| > 0 ==> sp[0].from == i)
    && (forall k :: 0 <= k < |sp| ==> sp[k].from < n && sp[k].from <= sp[k].to <= n)
    && (forall k, k' :: 0 <= k && k' == k + 1 < |sp| ==> sp[k].to == sp[k'].from)
  }

  /** The consumption loop over all caption lines, starting at token `i`. Reading a token
      past the end of the list at the start of a line is an error. */
  function Spans(lines: seq<string>, cw: seq<string>, i: nat): (r: Result<seq<Span>, AlignError>)
    ensures r.Ok? ==> |r.value| == |lines| && Chain(r.value, i, |cw|)
    ensures r.Err? ==> r.error == OutOfTokens && |lines| > 0
    ensures |lines| > 0 && i >= |cw| ==> r.Err?
    decreases |lines|
  {
    if |lines| == 0 then Ok([])
    else if i >= |cw| then Err(OutOfTokens)
    else
      var j := Consume(Clean(lines[0]), cw, i);
      match Spans(lines[1..], cw, j)
      case Err(e) => Err(e)
      case Ok(rest) =>
        ChainCons(i, j, rest, |cw|);
        Ok([Span(i, j)] + rest)
  }

  /** The token the consumption loop stands at when line `k` begins, having started line 0
      at token `i`. Once the tokens have run out the cursor stays where it is. */
  function Cursor(lines: seq<string>, cw: seq<string>, i: nat, k: nat): (c: nat)
    requires k <= |lines|
    ensures i <= c
    decreases k
  {
    if k == 0 || i >= |cw| then i
    else Cursor(lines[1..], cw, Consume(Clean(lines[0]), cw, i), k - 1)
  }

  /** The consumption loop fails exactly when some line begins with the cursor past the
      last token. */
  lemma {:induction false} SpansFail(lines: seq<string>, cw: seq<string>, i: nat)
    ensures Spans(lines, cw, i).Err? <==> exists k :: 0 <= k < |lines| && Cursor(lines, cw, i, k) >= |cw|
    decreases |lines|
  {
    if |lines| > 0 {
      if i >= |cw| {
        assert Cursor(lines, cw, i, 0) >= |cw|;
      } else {
        var j := Consume(Clean(lines[0]), cw, i);
        SpansFail(lines[1..], cw, j);
        CursorShift(lines, cw, i);
        if Spans(lines[1..], cw, j).Err? {
          var k' :| 0 <= k' < |lines| - 1 && Cursor(lines[1..], cw, j, k') >= |cw|;
          assert Cursor(lines, cw, i, k' + 1) >= |cw|;
        } else {
          forall k | 0 <= k < |lines| ensures Cursor(lines, cw, i, k) < |cw| {
            if k > 0 {
              assert Cursor(lines, cw, i, k) == Cursor(lines[1..], cw, j, k - 1);
            }
          }
        }
      }
    }
  }

  /** When the loop succeeds, line `k` takes the tokens from the cursor at its start to the
      cursor at the start of the next line. */
  lemma {:induction false} SpansAt(lines: seq<string>, cw: seq<string>, i: nat)
    requires Spans(lines, cw, i).Ok?
    ensures forall k :: 0 <= k < |lines| ==>
      Spans(lines, cw, i).value[k] == Span(Cursor(lines, cw, i, k), Cursor(lines, cw, i, k + 1))
    decreases |lines|
  {
    if |lines| > 0 {
      var j := Consume(Clean(lines[0]), cw, i);
      var r, rest := Spans(lines, cw, i).value, Spans(lines[1..], cw, j).value;
      SpansAt(lines[1..], cw, j);
      CursorShift(lines, cw, i);
      assert r == [Span(i, j)] + rest;
      forall k | 0 <= k < |lines| ensures r[k] == Span(Cursor(lines, cw, i, k), Cursor(lines, cw, i, k + 1)) {
        if k > 0 {
          assert r[k] == rest[k - 1];
        }
      }
    }
  }

  /** Past line 0, the cursor of `lines` is the cursor of the lines after it. */
  lemma CursorShift(lines: seq<string>, cw: seq<string>, i: nat)
    requires |lines| > 0 && i < |cw|
    ensures Cursor(lines, cw, i, 0) == i
    ensures forall k :: 0 <= k < |lines| ==>
      Cursor(lines, cw, i, k + 1) == Cursor(lines[1..], cw, Consume(Clean(lines[0]), cw, i), k)
  {
  }

  /** A span from `i` to `j` in front of a chain from `j` is a chain from `i`. */
  lemma ChainCons(i: nat, j: nat, rest: seq<Span>, n: nat)
    requires i < n && i <= j <= n && Chain(rest, j, n)
    ensures Chain([Span(i, j)] + rest, i, n)
  {
    var sp := [Span(i, j)] + rest;
    assert forall k :: 1 <= k < |sp| ==> sp[k] == rest[k - 1];
  }

  /** Caption line `line` is the blank-joined cleaned words of the tokens of span `sp`, and
      that span takes at least one token. */
  predicate LineOf(line: string, cw: seq<string>, sp: Span) {
    sp.from < sp.to <= |cw| && Clean(line) == Join(cw[sp.from..sp.to], ' ')
  }

  /** `lines` are written from consecutive runs of tokens, the runs of `sp`, which start at
      token `i` and use up the token list. */
  predicate Aligned(lines: seq<string>, cw: seq<string>, i: nat, sp: seq<Span>) {
    && |sp| == |lines| && Chain(sp, i, |cw|)
    && (if |sp| == 0 then i == |cw| else sp[|sp| - 1].to == |cw|)
    && forall k :: 0 <= k < |sp| ==> LineOf(lines[k], cw, sp[k])
  }

  /** Dropping the first span of a chain leaves a chain from where it ended. */
  lemma ChainTail(sp: seq<Span>, i: nat, n: nat)
    requires Chain(sp, i, n) && |sp| > 0
    ensures Chain(sp[1..], sp[0].to, n)
  {
    var sp' := sp[1..];
    assert forall k :: 0 <= k < |sp'| ==> sp'[k] == sp[k + 1];
    assert forall k, k' :: 0 <= k && k' == k + 1 < |sp'| ==> sp'[k].to == sp'[k'].from;
  }

  /** Dropping the first line of an alignment leaves an alignment from where it ended. */
  lemma AlignedTail(lines: seq<string>, cw: seq<string>, i: nat, sp: seq<Span>)
    requires Aligned(lines, cw, i, sp) && |sp| > 0
    ensures Aligned(lines[1..], cw, sp[0].to, sp[1..])
  {
    ChainTail(sp, i, |cw|);
    var sp', lines' := sp[1..], lines[1..];
    forall k | 0 <= k < |sp'| ensures LineOf(lines'[k], cw, sp'[k]) {
      assert sp'[k] == sp[k + 1] && lines'[k] == lines[k + 1];
      assert LineOf(lines[k + 1], cw, sp[k + 1]);
    }
  }

  /** The design intent of the reformatting strategies: caption lines made of the tokens'
      own words, none of which cleans to nothing, are timed by exactly their own tokens. */
  lemma {:induction false} SpansExact(lines: seq<string>, cw: seq<string>, i: nat, sp: seq<Span>)
    requires Aligned(lines, cw, i, sp)
    requires forall m :: 0 <= m < |cw| ==> cw[m] != ""
    ensures Spans(lines, cw, i) == Ok(sp)
    decreases |lines|
  {
    if |lines| > 0 {
      SpansHead(lines, cw, i, sp);
      AlignedTail(lines, cw, i, sp);
      SpansExact(lines[1..], cw, sp[0].to, sp[1..]);
      SpansStep(lines, cw, i, sp);
    }
  }

  /** The first line of an alignment takes exactly the tokens of its span. */
  lemma SpansHead(lines: seq<string>, cw: seq<string>, i: nat, sp: seq<Span>)
    requires Aligned(lines, cw, i, sp) && |lines| > 0
    requires forall m :: 0 <= m < |cw| ==> cw[m] != ""
    ensures i < |cw| && Consume(Clean(lines[0]), cw, i) == sp[0].to
  {
    var s0 := sp[0];
    assert LineOf(lines[0], cw, s0) && s0.from == i;
    ConsumeExact(cw, i, s0.to);
  }

  /** A first span found by consumption, followed by the spans of the remaining lines. */
  lemma SpansStep(lines: seq<string>, cw: seq<string>, i: nat, sp: seq<Span>)
    requires |lines| > 0 && |sp| > 0 && sp[0].from == i && i < |cw|
    requires Consume(Clean(lines[0]), cw, i) == sp[0].to
    requires Spans(lines[1..], cw, sp[0].to) == Ok(sp[1..])
    ensures Spans(lines, cw, i) == Ok(sp)
  {
    assert sp == [Span(i, sp[0].to)] + sp[1..];
  }

  // ---------------------------------------------------------------- non-iterative strategy

  /** One output cue: `start --> end` and its text. */
  datatype Cue = Cue(start: string, end: string, text: string)

  /** A caption line with the times the consumption loop found for it (`None` if none). */
  datatype Timed = Timed(start: Option<string>, end: Option<string>, line: string)

  /** Line `k` starts at its first token's start and ends at its last token's end. */
  function LineTimes(lines: seq<string>, toks: seq<TimedToken>, sp: seq<Span>): (ts: seq<Timed>)
    requires |sp| == |lines| && forall k :: 0 <= k < |sp| ==> sp[k].from <= sp[k].to <= |toks|
    ensures |ts| == |lines|
    ensures forall k :: 0 <= k < |ts| ==> ts[k].line == lines[k]
    ensures forall k :: 0 <= k < |ts| ==> (ts[k].start.Some? <==> sp[k].from < sp[k].to)
    ensures forall k :: 0 <= k < |ts| ==> (ts[k].start.Some? <==> ts[k].end.Some?)
    ensures forall k :: 0 <= k < |ts| && sp[k].from < sp[k].to ==>
      ts[k].start == Some(toks[sp[k].from].start) && ts[k].end == Some(toks[sp[k].to - 1].end)
  {
    seq(|lines|, k requires 0 <= k < |lines| =>
      if sp[k].from < sp[k].to then Timed(Some(toks[sp[k].from].start), Some(toks[sp[k].to - 1].end), lines[k])
      else Timed(None, None, lines[k]))
  }

  /** The first timed line without a time, or `|ts|`. */
  function FirstMissing(ts: seq<Timed>): (k: nat)
    ensures k <= |ts|
    ensures forall j :: 0 <= j < k ==> ts[j].start.Some? && ts[j].end.Some?
    ensures k < |ts| ==> ts[k].start.None? || ts[k].end.None?
  {
    if |ts| == 0 then 0
    else if ts[0].start.None? || ts[0].end.None? then 0
    else 1 + FirstMissing(ts[1..])
  }

  /** The writing loop: stop at the first line without a time (numbered from 1, as in the
      error message); otherwise one cue per line, `&nbsp` replaced by a blank. */
  function WriteTimed(ts: seq<Timed>): (r: Result<seq<Cue>, AlignError>)
    ensures r.Ok? <==> forall k :: 0 <= k < |ts| ==> ts[k].start.Some? && ts[k].end.Some?
    ensures r.Ok? ==> |r.value| == |ts| && forall k :: 0 <= k < |ts| ==>
      r.value[k] == Cue(ts[k].start.value, ts[k].end.value, ReplaceAll(ts[k].line, Nbsp, " "))
    ensures r.Err? ==> r.error.MissingTime? && (var n := r.error.line;
      && 1 <= n <= |ts|
      && (ts[n - 1].start.None? || ts[n - 1].end.None?)
      && forall k :: 0 <= k < n - 1 ==> ts[k].start.Some? && ts[k].end.Some?)
  {
    var k := FirstMissing(ts);
    if k < |ts| then Err(MissingTime(k + 1))
    else Ok(seq(|ts|, j requires 0 <= j < |ts| && ts[j].start.Some? && ts[j].end.Some? =>
      Cue(ts[j].start.value, ts[j].end.value, ReplaceAll(ts[j].line, Nbsp, " "))))
  }

  /** The spans the consumption loop gives the caption lines against the tokens. */
  function LineSpans(lines: seq<string>, toks: seq<TimedToken>): (r: Result<seq<Span>, AlignError>)
    ensures r.Ok? ==> |r.value| == |lines| && Chain(r.value, 0, |toks|)
    ensures r.Err? <==> exists k :: 0 <= k < |lines| && Cursor(lines, CleanTexts(toks), 0, k) >= |toks|
  {
    SpansFail(lines, CleanTexts(toks), 0);
    Spans(lines, CleanTexts(toks), 0)
  }

  /** `generate_non_iterative_subtitles_reformat`: one cue per caption line, from the start of
      its first token to the end of its last. */
  function NonIterativeCues(lines: seq<string>, toks: seq<TimedToken>): (r: Result<seq<Cue>, AlignError>)
    ensures LineSpans(lines, toks).Err? ==> r == Err(OutOfTokens)
    ensures r.Ok? ==> LineSpans(lines, toks).Ok? && |r.value| == |lines|
  {
    match LineSpans(lines, toks)
    case Err(e) => Err(e)
    case Ok(sp) => WriteTimed(LineTimes(lines, toks, sp))
  }

  /** Each non-iterative cue runs from the start of its line's first token to the end of
      its last, and shows the line with `&nbsp` replaced. */
  lemma NonIterativeTimes(lines: seq<string>, toks: seq<TimedToken>)
    requires NonIterativeCues(lines, toks).Ok?
    ensures var r, sp := NonIterativeCues(lines, toks).value, LineSpans(lines, toks).value;
      forall k :: 0 <= k < |lines| ==>
        && sp[k].from < sp[k].to
        && r[k] == Cue(toks[sp[k].from].start, toks[sp[k].to - 1].end, ReplaceAll(lines[k], Nbsp, " "))
  {
    TimedCues(lines, toks, LineSpans(lines, toks).value);
  }

  /** The non-iterative strategy stops with `MissingTime(n)` exactly at the first line that
      took no token. */
  lemma NonIterativeMissing(lines: seq<string>, toks: seq<TimedToken>)
    requires NonIterativeCues(lines, toks).Err? && LineSpans(lines, toks).Ok?
    ensures var e, sp := NonIterativeCues(lines, toks).error, LineSpans(lines, toks).value;
      && e.MissingTime? && 1 <= e.line <= |lines| && sp[e.line - 1].from == sp[e.line - 1].to
      && forall k :: 0 <= k < e.line - 1 ==> sp[k].from < sp[k].to
  {
    var sp := LineSpans(lines, toks).value;
    var ts := LineTimes(lines, toks, sp);
    assert NonIterativeCues(lines, toks) == WriteTimed(ts);
  }

  /** When every line has a time, each cue carries its line's first start and last end. */
  lemma TimedCues(lines: seq<string>, toks: seq<TimedToken>, sp: seq<Span>)
    requires |sp| == |lines| && forall k :: 0 <= k < |sp| ==> sp[k].from <= sp[k].to <= |toks|
    ensures var r := WriteTimed(LineTimes(lines, toks, sp));
      r.Ok? ==> forall k :: 0 <= k < |lines| ==>
        && sp[k].from < sp[k].to
        && r.value[k] == Cue(toks[sp[k].from].start, toks[sp[k].to - 1].end, ReplaceAll(lines[k], Nbsp, " "))
  {
    var ts := LineTimes(lines, toks, sp);
    var r := WriteTimed(ts);
    if r.Ok? {
      forall k | 0 <= k < |lines|
        ensures sp[k].from < sp[k].to
        ensures r.value[k] == Cue(toks[sp[k].from].start, toks[sp[k].to - 1].end, ReplaceAll(lines[k], Nbsp, " "))
      {
        assert ts[k].start.Some?;
      }
    }
  }

  /** Caption lines made of the tokens' own words, none of which cleans to nothing, get
      exactly their own tokens' spans. */
  lemma LineSpansExact(lines: seq<string>, toks: seq<TimedToken>, sp: seq<Span>)
    requires Aligned(lines, CleanTexts(toks), 0, sp)
    requires forall t :: t in toks ==> Clean(t.text) != ""
    ensures LineSpans(lines, toks) == Ok(sp)
  {
    var cw := CleanTexts(toks);
    forall m | 0 <= m < |cw| ensures cw[m] != "" {
      assert toks[m] in toks;
    }
    SpansExact(lines, cw, 0, sp);
  }

  /** Caption lines made of the tokens' own words, none of which cleans to nothing, are each
      timed from the start of their first token to the end of their last. */
  lemma NonIterativeExact(lines: seq<string>, toks: seq<TimedToken>, sp: seq<Span>)
    requires Aligned(lines, CleanTexts(toks), 0, sp)
    requires forall t :: t in toks ==> Clean(t.text) != ""
    ensures NonIterativeCues(lines, toks).Ok?
    ensures forall k :: 0 <= k < |lines| ==>
      && NonIterativeCues(lines, toks).value[k].start == toks[sp[k].from].start
      && NonIterativeCues(lines, toks).value[k].end == toks[sp[k].to - 1].end
  {
    LineSpansExact(lines, toks, sp);
    AlignedTimed(lines, toks, sp);
    NonIterativeTimes(lines, toks);
  }

  /** Every line of an alignment takes a token, so every line gets a time. */
  lemma AlignedTimed(lines: seq<string>, toks: seq<TimedToken>, sp: seq<Span>)
    requires Aligned(lines, CleanTexts(toks), 0, sp)
    requires LineSpans(lines, toks) == Ok(sp)
    ensures NonIterativeCues(lines, toks) == WriteTimed(LineTimes(lines, toks, sp))
    ensures NonIterativeCues(lines, toks).Ok?
  {
    var ts := LineTimes(lines, toks, sp);
    forall k | 0 <= k < |ts| ensures ts[k].start.Some? && ts[k].end.Some? {
      assert LineOf(lines[k], CleanTexts(toks), sp[k]);
    }
  }

  /** No cue text still holds `&nbsp`. */
  lemma NbspGone(line: string)
    ensures !Contains(ReplaceAll(line, Nbsp, " "), Nbsp)
  {
    ReplaceAllRemoves(line, Nbsp, " ");
  }

  // ---------------------------------------------------------------- iterative strategy

  /** The text of the cue for token `j` of a line that began at token `a`: the line so far,
      `&nbsp` replaced. */
  function CueText(toks: seq<TimedToken>, a: nat, j: nat): string
    requires a <= j < |toks|
  {
    ReplaceAll(Transcript(toks[a..j + 1]), Nbsp, " ")
  }

  /** The cues for tokens `j .. stop` of a line that began at token `a`. */
  function RunCues(toks: seq<TimedToken>, a: nat, j: nat, stop: nat): (cs: seq<Cue>)
    requires a <= j <= stop <= |toks|
    ensures |cs| == stop - j
    ensures forall m :: 0 <= m < |cs| ==>
      && cs[m].start == toks[j + m].start && cs[m].end == toks[j + m].end
      && cs[m].text == CueText(toks, a, j + m)
    decreases stop - j
  {
    if j == stop then []
    else
      var rest := RunCues(toks, a, j + 1, stop);
      RunCuesStep(toks, a, j, rest);
      [Cue(toks[j].start, toks[j].end, CueText(toks, a, j))] + rest
  }

  /** One more cue in front of the run of cues for the tokens after `j`. */
  lemma RunCuesStep(toks: seq<TimedToken>, a: nat, j: nat, rest: seq<Cue>)
    requires a <= j < |toks| && j + 1 + |rest| <= |toks|
    requires forall m :: 0 <= m < |rest| ==>
      && rest[m].start == toks[j + 1 + m].start && rest[m].end == toks[j + 1 + m].end
      && rest[m].text == CueText(toks, a, j + 1 + m)
    ensures var cs := [Cue(toks[j].start, toks[j].end, CueText(toks, a, j))] + rest;
      forall m :: 0 <= m < |cs| ==>
        && cs[m].start == toks[j + m].start && cs[m].end == toks[j + m].end
        && cs[m].text == CueText(toks, a, j + m)
  {
    var cs := [Cue(toks[j].start, toks[j].end, CueText(toks, a, j))] + rest;
    forall m | 1 <= m < |cs|
      ensures cs[m].start == toks[j + m].start && cs[m].end == toks[j + m].end
      ensures cs[m].text == CueText(toks, a, j + m)
    {
      assert cs[m] == rest[m - 1] && j + 1 + (m - 1) == j + m;
    }
  }

  /** The cues of all lines, line after line. */
  function AllLineCues(toks: seq<TimedToken>, sp: seq<Span>): (cs: seq<Cue>)
    requires forall k :: 0 <= k < |sp| ==> sp[k].from <= sp[k].to <= |toks|
  {
    if |sp| == 0 then [] else RunCues(toks, sp[0].from, sp[0].from, sp[0].to) + AllLineCues(toks, sp[1..])
  }

  /** `generate_iterative_subtitles_reformat`: a cue per token taken, showing the words of its
      line up to and including it. Times come from tokens, so the `None` check never fires. */
  function IterativeCues(lines: seq<string>, toks: seq<TimedToken>): (r: Result<seq<Cue>, AlignError>)
    ensures r.Err? <==> LineSpans(lines, toks).Err?
    ensures r.Err? ==> r.error == OutOfTokens
    ensures r.Ok? && |lines| > 0 ==> |r.value| == LineSpans(lines, toks).value[|lines| - 1].to
    ensures r.Ok? && |lines| == 0 ==> r.value == []
    ensures r.Ok? ==> |r.value| <= |toks|
    ensures r.Ok? ==> var sp := LineSpans(lines, toks).value;
      forall m :: 0 <= m < |r.value| ==>
        r.value[m] == Cue(toks[m].start, toks[m].end, CueText(toks, LineFrom(sp, m), m))
  {
    match LineSpans(lines, toks)
    case Err(e) => Err(e)
    case Ok(sp) =>
      ChainCues(toks, sp);
      Ok(AllLineCues(toks, sp))
  }

  /** The cues of a chain through all tokens from the first: one per token taken, each the
      token's own. */
  lemma ChainCues(toks: seq<TimedToken>, sp: seq<Span>)
    requires Chain(sp, 0, |toks|)
    ensures |sp| > 0 ==> |AllLineCues(toks, sp)| == sp[|sp| - 1].to
    ensures |sp| == 0 ==> AllLineCues(toks, sp) == []
    ensures |AllLineCues(toks, sp)| <= |toks|
    ensures forall m :: 0 <= m < |AllLineCues(toks, sp)| ==>
      AllLineCues(toks, sp)[m] == Cue(toks[m].start, toks[m].end, CueText(toks, LineFrom(sp, m), m))
  {
    ChainCount(toks, sp, 0);
    AllLineCuesAt(toks, sp, 0);
    var cs := AllLineCues(toks, sp);
    forall m | 0 <= m < |cs|
      ensures cs[m] == Cue(toks[m].start, toks[m].end, CueText(toks, LineFrom(sp, m), m))
    {
      assert 0 + m == m;
    }
  }

  /** The first token of the line that took token `t`: the start of the first span holding
      `t`, or `t` itself when none does. */
  function LineFrom(sp: seq<Span>, t: nat): (a: nat)
    ensures a <= t
  {
    if |sp| == 0 then t
    else if sp[0].from <= t < sp[0].to then sp[0].from
    else LineFrom(sp[1..], t)
  }

  /** In a chain, the line of a token is the span that holds it. */
  lemma {:induction false} LineFromAt(sp: seq<Span>, i: nat, n: nat, k: nat, t: nat)
    requires Chain(sp, i, n) && k < |sp| && sp[k].from <= t < sp[k].to
    ensures LineFrom(sp, t) == sp[k].from
    decreases k
  {
    if k > 0 {
      ChainOrdered(sp, i, n, k);
      ChainTail(sp, i, n);
      assert sp[1..][k - 1] == sp[k];
      LineFromAt(sp[1..], sp[0].to, n, k - 1, t);
    }
  }

  /** Cue `m` of `cs` belongs to token `i + m`: it carries that token's own times and shows the
      words of its line, as `sp` divides the tokens, up to and including it. */
  predicate CuesFrom(toks: seq<TimedToken>, sp: seq<Span>, i: nat, cs: seq<Cue>) {
    && (|cs| == 0 || i + |cs| <= |toks|)
    && forall m :: 0 <= m < |cs| ==>
      cs[m] == Cue(toks[i + m].start, toks[i + m].end, CueText(toks, LineFrom(sp, i + m), i + m))
  }

  /** Under a chain from token `i`, the cues of all lines belong to the tokens from `i` on. */
  lemma {:induction false} AllLineCuesAt(toks: seq<TimedToken>, sp: seq<Span>, i: nat)
    requires Chain(sp, i, |toks|)
    ensures CuesFrom(toks, sp, i, AllLineCues(toks, sp))
    decreases |sp|
  {
    if |sp| > 0 {
      ChainTail(sp, i, |toks|);
      AllLineCuesAt(toks, sp[1..], sp[0].to);
      CuesFromCons(toks, sp, i, AllLineCues(toks, sp[1..]));
    }
  }

  /** The cues of the first line in front of the cues of the lines after it. */
  lemma CuesFromCons(toks: seq<TimedToken>, sp: seq<Span>, i: nat, tail: seq<Cue>)
    requires Chain(sp, i, |toks|) && |sp| > 0
    requires CuesFrom(toks, sp[1..], sp[0].to, tail)
    ensures CuesFrom(toks, sp, i, RunCues(toks, i, i, sp[0].to) + tail)
  {
    var head := RunCues(toks, i, i, sp[0].to);
    var cs := head + tail;
    assert sp[0].from == i && |head| == sp[0].to - i;
    forall m | 0 <= m < |head|
      ensures cs[m] == Cue(toks[i + m].start, toks[i + m].end, CueText(toks, LineFrom(sp, i + m), i + m))
    {
      assert cs[m] == head[m];
    }
    forall m | |head| <= m < |cs|
      ensures cs[m] == Cue(toks[i + m].start, toks[i + m].end, CueText(toks, LineFrom(sp, i + m), i + m))
    {
      var m' := m - |head|;
      assert cs[m] == tail[m'] && sp[0].to + m' == i + m;
      assert LineFrom(sp, i + m) == LineFrom(sp[1..], sp[0].to + m');
    }
  }

  /** In a chain, every span starts no earlier than the first one ends. */
  lemma {:induction false} ChainOrdered(sp: seq<Span>, i: nat, n: nat, k: nat)
    requires Chain(sp, i, n) && 0 < k < |sp|
    ensures sp[0].to <= sp[k].from
    decreases k
  {
    if k > 1 {
      ChainOrdered(sp, i, n, k - 1);
      assert sp[k - 1].to == sp[k].from;
    } else {
      assert sp[0].to == sp[1].from;
    }
  }

  /** A chain from token `i` yields one cue per token up to where it ends. */
  lemma {:induction false} ChainCount(toks: seq<TimedToken>, sp: seq<Span>, i: nat)
    requires Chain(sp, i, |toks|)
    ensures |AllLineCues(toks, sp)| == if |sp| == 0 then 0 else sp[|sp| - 1].to - i
    decreases |sp|
  {
    if |sp| > 0 {
      ChainTail(sp, i, |toks|);
      ChainCount(toks, sp[1..], sp[0].to);
    }
  }

  /** A caption line that comes after the lines have taken every token, such as the empty
      line the source's wrapper can leave at the end of a sentence, makes both strategies
      fail with an `IndexError`. */
  lemma LineAfterLastToken(lines: seq<string>, toks: seq<TimedToken>, l: string)
    requires LineSpans(lines, toks).Ok? && |lines| > 0
    requires LineSpans(lines, toks).value[|lines| - 1].to == |toks|
    ensures NonIterativeCues(lines + [l], toks) == Err(OutOfTokens)
    ensures IterativeCues(lines + [l], toks) == Err(OutOfTokens)
  {
    SpansRunOut(lines, toks, l);
  }

  lemma SpansRunOut(lines: seq<string>, toks: seq<TimedToken>, l: string)
    requires LineSpans(lines, toks).Ok? && |lines| > 0
    requires LineSpans(lines, toks).value[|lines| - 1].to == |toks|
    ensures LineSpans(lines + [l], toks).Err?
  {
    SpansPastEnd(lines, CleanTexts(toks), 0, l);
  }

  /** Lines whose spans end at the last token leave none for a further line. */
  lemma {:induction false} SpansPastEnd(lines: seq<string>, cw: seq<string>, i: nat, l: string)
    requires Spans(lines, cw, i).Ok? && |lines| > 0
    requires Spans(lines, cw, i).value[|lines| - 1].to == |cw|
    ensures Spans(lines + [l], cw, i).Err?
    decreases |lines|
  {
    var j := Consume(Clean(lines[0]), cw, i);
    var lm := lines + [l];
    assert lm[0] == lines[0] && lm[1..] == lines[1..] + [l];
    var rest := Spans(lines[1..], cw, j);
    assert Spans(lines, cw, i).value == [Span(i, j)] + rest.value;
    if |lines| > 1 {
      assert rest.value[|lines| - 2].to == |cw|;
      SpansPastEnd(lines[1..], cw, j, l);
    } else {
      assert j == |cw|;
    }
  }

  /** Caption lines made of the tokens' own words get one cue per token, every token's. */
  lemma IterativeExact(lines: seq<string>, toks: seq<TimedToken>, sp: seq<Span>)
    requires Aligned(lines, CleanTexts(toks), 0, sp)
    requires forall t :: t in toks ==> Clean(t.text) != ""
    ensures IterativeCues(lines, toks).Ok?
    ensures |IterativeCues(lines, toks).value| == |toks|
  {
    LineSpansExact(lines, toks, sp);
  }

  /** `cumulative_block_line` grows by one word and a blank per token. */
  lemma {:induction false} TranscriptSnoc(ts: seq<TimedToken>, t: TimedToken)
    ensures Transcript(ts + [t]) == Transcript(ts) + t.text + " "
    decreases |ts|
  {
    if |ts| == 0 {
      assert [t][1..] == [];
    } else {
      assert (ts + [t])[1..] == ts[1..] + [t];
      TranscriptSnoc(ts[1..], t);
    }
  }

  lemma {:induction false} TranscriptEndsBlank(ts: seq<TimedToken>)
    requires |ts| > 0
    ensures |Transcript(ts)| > 0 && Transcript(ts)[|Transcript(ts)| - 1] == ' '
    decreases |ts|
  {
    if |ts| > 1 {
      TranscriptEndsBlank(ts[1..]);
    }
  }

  /** Within a line, each iterative cue shows the previous cue's text followed by the next
      word and a blank, `&nbsp` replaced: no entity can straddle the blank between words. */
  lemma CueTextGrows(toks: seq<TimedToken>, a: nat, j: nat)
    requires a <= j && j + 1 < |toks|
    ensures CueText(toks, a, j + 1) == CueText(toks, a, j) + ReplaceAll(toks[j + 1].text + " ", Nbsp, " ")
  {
    var pre, t := toks[a..j + 1], toks[j + 1];
    assert toks[a..j + 2] == pre + [t];
    TranscriptSnoc(pre, t);
    TranscriptEndsBlank(pre);
    var x := Transcript(pre);
    assert Transcript(pre + [t]) == x + (t.text + " ");
    assert forall q :: 0 <= q < |Nbsp| ==> Nbsp[q] != x[|x| - 1];
    ReplaceAllConcat(x, t.text + " ", Nbsp, " ");
  }
}
