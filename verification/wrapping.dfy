/** Turning the transcript into caption lines: sentence splitting and the greedy
    42-column line wrap with its preference for breaking after a comma. */
module Wrapping {
  import opened Text
  import opened Tracks

  /** The default `max_line_length` of the line wrapper. */
  const MaxLineLength: nat := 42

  /** The sentence delimiters `[;:!?.]`. */
  const SentenceEnds: set<char> := {';', ':', '!', '?', '.'}

  // ---------------------------------------------------------------- the wrapper's state

  /** The lines emitted so far and the line being filled (`current_line`). */
  datatype Wrap = Wrap(lines: seq<string>, cur: string)

  /** The wrapper's starting state. */
  const Start: Wrap := Wrap([], "")

  /** Adding `w` and its blank to `cur` would pass the limit. */
  predicate Overflows(cur: string, w: string, maxLen: nat) {
    |cur| + |w| + 1 > maxLen
  }

  /** The comma at `k` sits between two digits, as in `1,000`. */
  predicate DigitFlanked(s: string, k: int)
    requires 0 <= k < |s|
  {
    k > 0 && IsDigit(s[k - 1]) && k < |s| - 1 && IsDigit(s[k + 1])
  }

  /** The line holds a comma and its stripped length is past 80% of the limit
      (`len > 0.8 * max` is `5 * len > 4 * max` on whole numbers). */
  predicate WantsCommaBreak(cur: string, maxLen: nat) {
    ',' in cur && 5 * |Strip(cur)| > 4 * maxLen
  }

  /** The comma rule: break after the LAST comma of the line unless that comma is between
      digits (then nothing happens, even if an earlier comma would do). The source's
      `split_index != -1` test always passes here, as the line holds a comma. */
  function CommaBreak(st: Wrap, maxLen: nat): (r: Wrap)
    ensures r == st <==>
      !WantsCommaBreak(st.cur, maxLen) || DigitFlanked(st.cur, RFind(st.cur, ','))
    ensures r != st ==> |r.lines| == |st.lines| + 1 && r.lines[..|st.lines|] == st.lines
  {
    if WantsCommaBreak(st.cur, maxLen) then
      var k := RFind(st.cur, ',');
      if DigitFlanked(st.cur, k) then st
      else Wrap(st.lines + [CommaHeadOf(st.cur)], CommaTailOf(st.cur) + " ")
    else st
  }

  predicate EndsWithComma(l: string) {
    |l| > 0 && l[|l| - 1] == ','
  }

  /** The line a comma break emits: the text up to and including the last comma, stripped. */
  function CommaHeadOf(cur: string): (l: string)
    requires ',' in cur
    ensures EndsWithComma(l)
  {
    CommaHead(cur);
    Strip(cur[..RFind(cur, ',') + 1])
  }

  /** What a comma break leaves to fill: the text after the last comma, stripped. */
  function CommaTailOf(cur: string): (u: string)
    requires ',' in cur
    ensures ',' !in u
  {
    CommaTail(cur);
    Strip(cur[RFind(cur, ',') + 1..])
  }

  /** Cutting after the last comma: the emitted head ends with that comma. */
  lemma CommaHead(cur: string)
    requires ',' in cur
    ensures EndsWithComma(Strip(cur[..RFind(cur, ',') + 1]))
  {
    StripKeepsLast(cur[..RFind(cur, ',') + 1]);
  }

  /** Cutting after the last comma: what is left holds no comma. */
  lemma CommaTail(cur: string)
    requires ',' in cur
    ensures ',' !in Strip(cur[RFind(cur, ',') + 1..])
  {
    var tail := cur[RFind(cur, ',') + 1..];
    if ',' in Strip(tail) {
      StripInside(tail, ',');
    }
  }

  lemma NoCommaBlank(u: string)
    requires ',' !in u
    ensures ',' !in u + " "
  {
  }

  /** When the comma rule fires, the emitted line is the stripped head up to and including
      the last comma, and the stripped rest, plus a blank, is left to fill. */
  lemma CommaBreakShape(st: Wrap, maxLen: nat)
    requires CommaBreak(st, maxLen) != st
    ensures ',' in st.cur
    ensures CommaBreak(st, maxLen) == Wrap(st.lines + [CommaHeadOf(st.cur)], CommaTailOf(st.cur) + " ")
  {
  }

  /** A comma break ends the emitted line at the comma and keeps no comma in the line being filled. */
  lemma CommaBreakAtLastComma(st: Wrap, maxLen: nat)
    requires CommaBreak(st, maxLen) != st
    ensures |CommaBreak(st, maxLen).lines| == |st.lines| + 1
    ensures EndsWithComma(CommaBreak(st, maxLen).lines[|st.lines|])
    ensures ',' !in CommaBreak(st, maxLen).cur
  {
    CommaBreakShape(st, maxLen);
    BreakFacts(st.lines, CommaHeadOf(st.cur), CommaTailOf(st.cur), CommaBreak(st, maxLen));
  }

  lemma BreakFacts(lines: seq<string>, l: string, u: string, r: Wrap)
    requires r == Wrap(lines + [l], u + " ") && EndsWithComma(l) && ',' !in u
    ensures |r.lines| == |lines| + 1
    ensures EndsWithComma(r.lines[|lines|])
    ensures ',' !in r.cur
  {
    assert r.lines[|lines|] == l;
    NoCommaBlank(u);
  }

  /** One iteration of the word loop. A word longer than the limit arriving at an empty
      line becomes a line of its own and skips the comma rule (the source's `continue`). */
  function Step(st: Wrap, w: string, maxLen: nat): Wrap {
    var over := Overflows(st.cur, w, maxLen);
    if over && st.cur == "" && |w| > maxLen then Wrap(st.lines + [w], "")
    else
      var flushed := if over && st.cur != "" then Wrap(st.lines + [Strip(st.cur)], "") else st;
      CommaBreak(Wrap(flushed.lines, flushed.cur + w + " "), maxLen)
  }

  /** The trailing `if current_line:` flush. */
  function Finish(st: Wrap): seq<string> {
    if st.cur != "" then st.lines + [Strip(st.cur)] else st.lines
  }

  // ---------------------------------------------------------------- invariants

  /** Every visible character handed to the wrapper, in order. */
  function Content(st: Wrap): string {
    Unspaced(Flatten(st.lines) + st.cur)
  }

  /** A line is on screen-width or is a single unbreakable word. */
  predicate LineFits(l: string, maxLen: nat) {
    |l| <= maxLen || Unbroken(l)
  }

  predicate AllFit(lines: seq<string>, maxLen: nat) {
    forall l :: l in lines ==> LineFits(l, maxLen)
  }

  /** The line being filled ends in a blank and is short, or holds a single word. */
  predicate CurOk(cur: string, maxLen: nat) {
    cur == "" || (cur[|cur| - 1] == ' ' && (|cur| <= maxLen + 1 || Unbroken(cur[..|cur| - 1])))
  }

  predicate Sound(st: Wrap, maxLen: nat) {
    CurOk(st.cur, maxLen) && AllFit(st.lines, maxLen)
  }

  lemma ContentAppend(lines: seq<string>, l: string, cur: string)
    ensures Unspaced(Flatten(lines + [l]) + cur) == Unspaced(Flatten(lines)) + Unspaced(l) + Unspaced(cur)
  {
    FlattenConcat(lines, [l]);
    assert [l][1..] == [];
    assert Flatten([l]) == l + Flatten([]) == l;
    UnspacedConcat(Flatten(lines) + l, cur);
    UnspacedConcat(Flatten(lines), l);
  }

  lemma ContentCur(lines: seq<string>, cur: string)
    ensures Unspaced(Flatten(lines) + cur) == Unspaced(Flatten(lines)) + Unspaced(cur)
  {
    UnspacedConcat(Flatten(lines), cur);
  }

  lemma BlankUnspaced()
    ensures Unspaced(" ") == ""
  {
    AllSpaceUnspaced(" ");
  }

  /** Flushing a sound line emits a line that fits. */
  lemma FlushFits(cur: string, maxLen: nat)
    requires CurOk(cur, maxLen) && cur != ""
    ensures LineFits(Strip(cur), maxLen)
  {
    if |cur| <= maxLen + 1 {
      StripShortens(cur);
    } else {
      assert cur == cur[..|cur| - 1] + " ";
      WordSpaceStrip(cur[..|cur| - 1]);
    }
  }

  /** Cutting a sound line after position `k` gives a line that fits... */
  lemma CutHeadFits(cur: string, k: nat, maxLen: nat)
    requires CurOk(cur, maxLen) && k + 1 < |cur|
    ensures LineFits(Strip(cur[..k + 1]), maxLen)
  {
    if |cur| > maxLen + 1 {
      var w := cur[..|cur| - 1];
      assert cur[..k + 1] == w[..k + 1];
      StripUnbroken(w[..k + 1]);
    }
  }

  /** ... and a sound remainder. */
  lemma CutTailOk(cur: string, k: nat, maxLen: nat)
    requires CurOk(cur, maxLen) && k + 1 < |cur|
    ensures CurOk(Strip(cur[k + 1..]) + " ", maxLen)
  {
    var u := Strip(cur[k + 1..]);
    assert (u + " ")[|u + " "| - 1] == ' ' && (u + " ")[..|u|] == u;
    if |cur| > maxLen + 1 {
      var w := cur[..|cur| - 1];
      assert cur[k + 1..] == w[k + 1..] + " ";
      WordSpaceStrip(w[k + 1..]);
    }
  }

  /** Cutting a line after position `k` and stripping both halves keeps its visible characters. */
  lemma CutContent(cur: string, k: nat)
    requires k < |cur|
    ensures Unspaced(Strip(cur[..k + 1])) + Unspaced(Strip(cur[k + 1..]) + " ") == Unspaced(cur)
  {
    var head, tail := cur[..k + 1], cur[k + 1..];
    StripUnspaced(head);
    UnspacedConcat(Strip(tail), " ");
    StripUnspaced(tail);
    BlankUnspaced();
    assert cur == head + tail;
    UnspacedConcat(head, tail);
  }

  /** Emitting a fitting line and keeping a sound remainder is sound; it moves no visible character. */
  lemma EmitSound(lines: seq<string>, l: string, cur: string, maxLen: nat)
    requires AllFit(lines, maxLen) && LineFits(l, maxLen) && CurOk(cur, maxLen)
    ensures Sound(Wrap(lines + [l], cur), maxLen)
    ensures Content(Wrap(lines + [l], cur)) == Unspaced(Flatten(lines)) + Unspaced(l) + Unspaced(cur)
  {
    ContentAppend(lines, l, cur);
  }

  /** The comma rule keeps the wrapper sound and loses no visible character. */
  lemma CommaBreakSound(st: Wrap, maxLen: nat)
    requires Sound(st, maxLen)
    ensures Sound(CommaBreak(st, maxLen), maxLen)
    ensures Content(CommaBreak(st, maxLen)) == Content(st)
  {
    if CommaBreak(st, maxLen) != st {
      CommaBreakShape(st, maxLen);
      CutSound(st.lines, st.cur, maxLen);
    }
  }

  /** Cutting a sound line after its last comma is sound and keeps its visible characters. */
  lemma CutSound(lines: seq<string>, cur: string, maxLen: nat)
    requires AllFit(lines, maxLen) && CurOk(cur, maxLen) && ',' in cur
    ensures Sound(Wrap(lines + [CommaHeadOf(cur)], CommaTailOf(cur) + " "), maxLen)
    ensures Content(Wrap(lines + [CommaHeadOf(cur)], CommaTailOf(cur) + " ")) == Content(Wrap(lines, cur))
  {
    var k := RFind(cur, ',');
    CommaBeforeEnd(cur, maxLen);
    CutAt(lines, cur, k, CommaHeadOf(cur), CommaTailOf(cur), maxLen);
  }

  /** The line being filled ends in a blank, so its last comma is not its last character. */
  lemma CommaBeforeEnd(cur: string, maxLen: nat)
    requires CurOk(cur, maxLen) && ',' in cur
    ensures RFind(cur, ',') + 1 < |cur|
  {
    var k := RFind(cur, ',');
    assert cur[k] == ',' && cur[|cur| - 1] == ' ';
  }

  /** Cutting a sound line after any position but the last, into the stripped head `l` and the
      stripped rest `u`, is sound and keeps its visible characters. */
  lemma CutAt(lines: seq<string>, cur: string, k: nat, l: string, u: string, maxLen: nat)
    requires AllFit(lines, maxLen) && CurOk(cur, maxLen) && k + 1 < |cur|
    requires l == Strip(cur[..k + 1]) && u == Strip(cur[k + 1..])
    ensures Sound(Wrap(lines + [l], u + " "), maxLen)
    ensures Content(Wrap(lines + [l], u + " ")) == Content(Wrap(lines, cur))
  {
    CutHeadFits(cur, k, maxLen);
    CutTailOk(cur, k, maxLen);
    EmitSound(lines, l, u + " ", maxLen);
    CutKeeps(lines, cur, k, l, u);
  }

  /** Regrouping a concatenation of three strings. */
  lemma Associate(a: string, b: string, c: string)
    ensures a + b + c == a + (b + c)
  {
  }

  /** The visible characters of the lines and of `cur` survive the cut of `cur` after `k`. */
  lemma CutKeeps(lines: seq<string>, cur: string, k: nat, l: string, u: string)
    requires k < |cur| && l == Strip(cur[..k + 1]) && u == Strip(cur[k + 1..])
    ensures Unspaced(Flatten(lines)) + Unspaced(l) + Unspaced(u + " ") == Content(Wrap(lines, cur))
  {
    CutContent(cur, k);
    ContentCur(lines, cur);
    Associate(Unspaced(Flatten(lines)), Unspaced(l), Unspaced(u + " "));
  }

  /** A word too long for any line, met at an empty line, becomes a line by itself. */
  lemma StepLongWord(st: Wrap, w: string, maxLen: nat)
    requires Sound(st, maxLen) && Unbroken(w) && st.cur == ""
    ensures Sound(Wrap(st.lines + [w], ""), maxLen)
    ensures Content(Wrap(st.lines + [w], "")) == Content(st) + w
  {
    UnspacedUnbroken(w);
    EmitSound(st.lines, w, "", maxLen);
    ContentCur(st.lines, "");
    KeepNone("", IsVisible);
  }

  /** Flushing the current line and starting the next with `w`. */
  lemma StepFlush(st: Wrap, w: string, maxLen: nat)
    requires Sound(st, maxLen) && Unbroken(w) && st.cur != ""
    ensures Sound(Wrap(st.lines + [Strip(st.cur)], w + " "), maxLen)
    ensures Content(Wrap(st.lines + [Strip(st.cur)], w + " ")) == Content(st) + w
  {
    FlushFits(st.cur, maxLen);
    assert (w + " ")[..|w|] == w;
    EmitSound(st.lines, Strip(st.cur), w + " ", maxLen);
    StripUnspaced(st.cur);
    ContentCur(st.lines, st.cur);
    WordBlankUnspaced(w);
  }

  /** Appending `w` and a blank to a line with room for them. */
  lemma StepAppend(st: Wrap, w: string, maxLen: nat)
    requires Sound(st, maxLen) && Unbroken(w) && (st.cur == "" ==> |w| <= maxLen)
    requires !Overflows(st.cur, w, maxLen) || st.cur == ""
    ensures Sound(Wrap(st.lines, st.cur + w + " "), maxLen)
    ensures Content(Wrap(st.lines, st.cur + w + " ")) == Content(st) + w
  {
    var c := st.cur + w + " ";
    assert c[|c| - 1] == ' ';
    ContentCur(st.lines, c);
    ContentCur(st.lines, st.cur);
    assert c == st.cur + (w + " ");
    UnspacedConcat(st.cur, w + " ");
    WordBlankUnspaced(w);
  }

  lemma WordBlankUnspaced(w: string)
    requires Unbroken(w)
    ensures Unspaced(w + " ") == w
  {
    UnspacedUnbroken(w);
    BlankUnspaced();
    UnspacedConcat(w, " ");
  }

  /** One word step keeps the wrapper sound and appends exactly the word's characters. */
  lemma StepSound(st: Wrap, w: string, maxLen: nat)
    requires Sound(st, maxLen) && |w| > 0 && Unbroken(w)
    ensures Sound(Step(st, w, maxLen), maxLen)
    ensures Content(Step(st, w, maxLen)) == Content(st) + w
  {
    var over := Overflows(st.cur, w, maxLen);
    if over && st.cur == "" && |w| > maxLen {
      StepLongWord(st, w, maxLen);
    } else if over && st.cur != "" {
      var mid := Wrap(st.lines + [Strip(st.cur)], w + " ");
      assert "" + w + " " == w + " ";
      assert Step(st, w, maxLen) == CommaBreak(mid, maxLen);
      StepFlush(st, w, maxLen);
      CommaBreakSound(mid, maxLen);
    } else {
      var mid := Wrap(st.lines, st.cur + w + " ");
      assert Step(st, w, maxLen) == CommaBreak(mid, maxLen);
      StepAppend(st, w, maxLen);
      CommaBreakSound(mid, maxLen);
    }
  }

  /** The word loop: every word handed over, in order. */
  function WrapFrom(st: Wrap, ws: seq<string>, maxLen: nat): (r: Wrap)
    requires Sound(st, maxLen)
    requires forall w :: w in ws ==> |w| > 0 && Unbroken(w)
    ensures Sound(r, maxLen)
    ensures Content(r) == Content(st) + Flatten(ws)
    decreases |ws|
  {
    if |ws| == 0 then st
    else
      StepSound(st, ws[0], maxLen);
      var r := WrapFrom(Step(st, ws[0], maxLen), ws[1..], maxLen);
      r
  }

  /** The final flush loses nothing and emits a line that fits. */
  lemma FinishSound(st: Wrap, maxLen: nat)
    requires Sound(st, maxLen)
    ensures AllFit(Finish(st), maxLen)
    ensures Unspaced(Flatten(Finish(st))) == Content(st)
  {
    if st.cur != "" {
      FlushFits(st.cur, maxLen);
      ContentAppend(st.lines, Strip(st.cur), "");
      StripUnspaced(st.cur);
      ContentCur(st.lines, st.cur);
      assert Flatten(Finish(st)) + "" == Flatten(Finish(st));
    } else {
      assert Flatten(st.lines) + "" == Flatten(st.lines);
    }
  }

  /** `_split_sentence_into_subtitle_lines` as written: every line fits on screen or is one
      over-long word, and the lines carry exactly the sentence's visible characters. */
  function SubtitleLinesAsWritten(text: string, maxLen: nat): (lines: seq<string>)
    ensures AllFit(lines, maxLen)
    ensures Unspaced(Flatten(lines)) == Unspaced(text)
  {
    var st := WrapFrom(Start, Words(text), maxLen);
    FinishSound(st, maxLen);
    assert Content(Start) == "" by {
      assert Flatten([]) + "" == "";
      KeepNone("", IsVisible);
    }
    Finish(st)
  }

  /** A comma ending an over-80% line leaves a lone blank as the current line, which the
      final flush turns into an empty caption line. */
  lemma EmptyLineAfterComma()
    ensures SubtitleLinesAsWritten("ab,", 3) == ["ab,", ""]
  {
    var st := WrapFrom(Start, Words("ab,"), 3);
    assert SubtitleLinesAsWritten("ab,", 3) == Finish(st);
    WrapCommaWord();
    FinishBlank();
  }

  /** Flushing a lone blank emits an empty line. */
  lemma FinishBlank()
    ensures Finish(Wrap(["ab,"], " ")) == ["ab,", ""]
  {
    BlankStrip();
  }

  /** Wrapping `ab,` at width 3 ends with the comma piece emitted and a bare space pending. */
  lemma WrapCommaWord()
    ensures WrapFrom(Start, Words("ab,"), 3) == Wrap(["ab,"], " ")
  {
    var w := "ab,";
    assert Unbroken(w);
    SingleWord(w);
    WrapSingle(w, 3);
    FirstStepLeavesBlank();
  }

  /** A one-word sentence is one step. */
  lemma WrapSingle(w: string, maxLen: nat)
    requires |w| > 0 && Unbroken(w)
    ensures WrapFrom(Start, [w], maxLen) == Step(Start, w, maxLen)
  {
    assert [w][1..] == [];
    StepSound(Start, w, maxLen);
  }

  lemma FirstStepLeavesBlank()
    ensures Step(Start, "ab,", 3) == Wrap(["ab,"], " ")
  {
    assert "" + "ab," + " " == "ab, ";
    assert Step(Start, "ab,", 3) == CommaBreak(Wrap([], "ab, "), 3);
    CommaBreakLeavesBlank();
  }

  lemma CommaBreakLeavesBlank()
    ensures CommaBreak(Wrap([], "ab, "), 3) == Wrap(["ab,"], " ")
  {
    var w, cur := "ab,", "ab, ";
    assert Unbroken(w) && cur == w + " ";
    WordSpaceStrip(w);
    assert WantsCommaBreak(cur, 3);
    ExampleCut();
    assert !DigitFlanked(cur, 2);
    assert [] + ["ab,"] == ["ab,"] && "" + " " == " ";
  }

  /** The last comma of `ab, ` is at 2; the cut gives `ab,` and nothing. */
  lemma ExampleCut()
    ensures RFind("ab, ", ',') == 2
    ensures CommaHeadOf("ab, ") == "ab," && CommaTailOf("ab, ") == ""
  {
    var w, cur := "ab,", "ab, ";
    assert RFindBelow(cur, ',', 3) == 2;
    assert cur[..3] == w && cur[3..] == " ";
    assert Unbroken(w);
    StripUnbroken(w);
    BlankStrip();
  }

  lemma BlankStrip()
    ensures Strip(" ") == ""
  {
    assert TrimEnd(" ", 1) == 0;
  }

  /** Drops the empty lines the as-written wrapper can emit. */
  function NonEmpty(lines: seq<string>): (r: seq<string>)
    ensures forall l :: l in r ==> l != "" && l in lines
    ensures Flatten(r) == Flatten(lines)
  {
    if |lines| == 0 then []
    else
      var rest := NonEmpty(lines[1..]);
      if lines[0] == "" then
        assert Flatten(lines) == "" + Flatten(lines[1..]);
        rest
      else
        assert ([lines[0]] + rest)[1..] == rest;
        [lines[0]] + rest
  }

  /** The wrapper as evidently intended: the same lines, but never an empty one. */
  function SubtitleLines(text: string, maxLen: nat): (lines: seq<string>)
    ensures AllFit(lines, maxLen)
    ensures forall l :: l in lines ==> l != ""
    ensures Unspaced(Flatten(lines)) == Unspaced(text)
  {
    NonEmpty(SubtitleLinesAsWritten(text, maxLen))
  }

  /** Only the blank lines differ between the two wrappers. */
  lemma SubtitleLinesDiffer(text: string, maxLen: nat)
    ensures SubtitleLines(text, maxLen) == SubtitleLinesAsWritten(text, maxLen) <==>
      "" !in SubtitleLinesAsWritten(text, maxLen)
  {
    NonEmptyKeeps(SubtitleLinesAsWritten(text, maxLen));
  }

  lemma {:induction false} NonEmptyKeeps(lines: seq<string>)
    ensures NonEmpty(lines) == lines <==> "" !in lines
  {
    if |lines| > 0 {
      NonEmptyKeeps(lines[1..]);
      if lines[0] == "" {
        assert |NonEmpty(lines)| <= |lines[1..]| by { NonEmptyShorter(lines[1..]); }
      } else {
        assert lines == [lines[0]] + lines[1..];
      }
    }
  }

  lemma {:induction false} NonEmptyShorter(lines: seq<string>)
    ensures |NonEmpty(lines)| <= |lines|
  {
    if |lines| > 0 {
      NonEmptyShorter(lines[1..]);
    }
  }

  // ---------------------------------------------------------------- sentences and caption lines

  /** `full_text`: every token's word followed by a blank. */
  function Transcript(ts: seq<TimedToken>): string {
    if |ts| == 0 then "" else ts[0].text + " " + Transcript(ts[1..])
  }

  /** The transcript holds exactly the tokens' visible characters, in order. */
  lemma {:induction false} TranscriptContent(ts: seq<TimedToken>)
    ensures Unspaced(Transcript(ts)) == Unspaced(Flatten(Texts(ts)))
    decreases |ts|
  {
    if |ts| > 0 {
      var rest := Transcript(ts[1..]);
      TranscriptContent(ts[1..]);
      assert Texts(ts) == [ts[0].text] + Texts(ts[1..]);
      assert Flatten(Texts(ts)) == ts[0].text + Flatten(Texts(ts[1..]));
      UnspacedConcat(ts[0].text + " ", rest);
      UnspacedConcat(ts[0].text, " ");
      BlankUnspaced();
      UnspacedConcat(ts[0].text, Flatten(Texts(ts[1..])));
    }
  }

  /** `re.split('[;:!?.]', text)`. */
  function Sentences(text: string): (ss: seq<string>)
    ensures |ss| >= 1
    ensures forall s :: s in ss ==> Avoids(s, SentenceEnds)
    ensures Flatten(ss) == RemoveChars(text, SentenceEnds)
  {
    SplitAnyContent(text, SentenceEnds);
    SplitAny(text, SentenceEnds)
  }

  /** The lines of every sentence, one sentence after the other, wrapped as the source
      wraps them: a sentence can leave an empty line behind (`EmptyLineAfterComma`). */
  function LinesOfAll(ss: seq<string>, maxLen: nat): (lines: seq<string>)
    ensures AllFit(lines, maxLen)
    ensures Unspaced(Flatten(lines)) == Unspaced(Flatten(ss))
  {
    if |ss| == 0 then []
    else
      var here := SubtitleLinesAsWritten(ss[0], maxLen);
      var rest := LinesOfAll(ss[1..], maxLen);
      FlattenConcat(here, rest);
      UnspacedConcat(Flatten(here), Flatten(rest));
      UnspacedConcat(ss[0], Flatten(ss[1..]));
      here + rest
  }

  /** The lines of every sentence with the evidently intended wrapper: never an empty line. */
  function CorrectedLinesOfAll(ss: seq<string>, maxLen: nat): (lines: seq<string>)
    ensures AllFit(lines, maxLen)
    ensures forall l :: l in lines ==> l != ""
    ensures Unspaced(Flatten(lines)) == Unspaced(Flatten(ss))
  {
    if |ss| == 0 then []
    else
      var here := SubtitleLines(ss[0], maxLen);
      var rest := CorrectedLinesOfAll(ss[1..], maxLen);
      FlattenConcat(here, rest);
      UnspacedConcat(Flatten(here), Flatten(rest));
      UnspacedConcat(ss[0], Flatten(ss[1..]));
      here + rest
  }

  /** The corrected lines are the lines the source writes, with the empty ones left out. */
  lemma {:induction false} CorrectedDropsEmpty(ss: seq<string>, maxLen: nat)
    ensures CorrectedLinesOfAll(ss, maxLen) == NonEmpty(LinesOfAll(ss, maxLen))
    decreases |ss|
  {
    if |ss| > 0 {
      CorrectedDropsEmpty(ss[1..], maxLen);
      NonEmptyConcat(SubtitleLinesAsWritten(ss[0], maxLen), LinesOfAll(ss[1..], maxLen));
    }
  }

  /** Dropping the empty lines of two pieces one after the other. */
  lemma {:induction false} NonEmptyConcat(a: seq<string>, b: seq<string>)
    ensures NonEmpty(a + b) == NonEmpty(a) + NonEmpty(b)
    decreases |a|
  {
    if |a| == 0 {
      assert a + b == b;
    } else {
      assert (a + b)[0] == a[0] && (a + b)[1..] == a[1..] + b;
      NonEmptyConcat(a[1..], b);
    }
  }

  /** `_get_caption_lines`: the transcript, punctuated by `restore` (the punctuation model,
      which this model takes as a parameter), cut into sentences and wrapped at 42 columns.
      The lines hold exactly the visible characters of the punctuated transcript, minus
      the sentence delimiters; an empty line can be among them. */
  function CaptionLines(ts: seq<TimedToken>, restore: string -> string): (lines: seq<string>)
    ensures AllFit(lines, MaxLineLength)
    ensures Unspaced(Flatten(lines)) == Unspaced(RemoveChars(restore(Transcript(ts)), SentenceEnds))
  {
    LinesOfAll(Sentences(restore(Transcript(ts))), MaxLineLength)
  }

  /** The caption lines with the evidently intended wrapper: the same lines without the
      empty ones. */
  function CorrectedCaptionLines(ts: seq<TimedToken>, restore: string -> string): (lines: seq<string>)
    ensures AllFit(lines, MaxLineLength)
    ensures forall l :: l in lines ==> l != ""
    ensures Unspaced(Flatten(lines)) == Unspaced(RemoveChars(restore(Transcript(ts)), SentenceEnds))
    ensures lines == NonEmpty(CaptionLines(ts, restore))
  {
    CorrectedDropsEmpty(Sentences(restore(Transcript(ts))), MaxLineLength);
    CorrectedLinesOfAll(Sentences(restore(Transcript(ts))), MaxLineLength)
  }
}
