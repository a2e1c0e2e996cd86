/** Reading a caption track into timed word tokens: four-line blocks, the timing-line shape,
    inline `<HH:MM:SS.mmm>` markers, and the removal of rollover duplicates. */
module Tracks {
  import opened Text
  import opened Results

  /** A word with the interval it is spoken in. Timestamps stay `HH:MM:SS.mmm` text. */
  datatype TimedToken = TimedToken(start: string, end: string, text: string)

  const Brackets: set<char> := {'<', '>'}

  /** The source's TimedToken constructor: angle brackets are deleted from both timestamps,
      which otherwise keep their characters; a bracket-free timestamp is kept as it is. */
  function MakeToken(start: string, end: string, text: string): (t: TimedToken)
    ensures Avoids(t.start, Brackets) && Avoids(t.end, Brackets) && t.text == text
    ensures |t.start| <= |start| && |t.end| <= |end|
    ensures Unspaced(t.start) == RemoveChars(Unspaced(start), Brackets)
    ensures Unspaced(t.end) == RemoveChars(Unspaced(end), Brackets)
    ensures Avoids(start, Brackets) ==> t.start == start
    ensures Avoids(end, Brackets) ==> t.end == end
  {
    KeepSwap(start, c => c !in Brackets, IsVisible);
    KeepSwap(end, c => c !in Brackets, IsVisible);
    RemoveNothing(start, Brackets);
    RemoveNothing(end, Brackets);
    TimedToken(RemoveChars(start, Brackets), RemoveChars(end, Brackets), text)
  }

  /** The texts of a token sequence, in order. */
  function Texts(ts: seq<TimedToken>): (r: seq<string>)
    ensures |r| == |ts| && forall i :: 0 <= i < |ts| ==> r[i] == ts[i].text
  {
    seq(|ts|, i requires 0 <= i < |ts| => ts[i].text)
  }

  // ---------------------------------------------------------------- four-line blocks

  /** Every line right-stripped (`[line.rstrip() for line in lines]`). */
  function RStripAll(lines: seq<string>): (r: seq<string>)
    ensures |r| == |lines| && forall i :: 0 <= i < |lines| ==> r[i] == RStrip(lines[i])
  {
    seq(|lines|, i requires 0 <= i < |lines| => RStrip(lines[i]))
  }

  /** Pops empty lines off the end (`while lines and lines[-1] == '': lines.pop()`). */
  function DropTrailingEmpty(t: seq<string>): (r: seq<string>)
    ensures |r| <= |t| && r == t[..|r|]
    ensures |r| == 0 || r[|r| - 1] != ""
    ensures forall i :: |r| <= i < |t| ==> t[i] == ""
  {
    if |t| > 0 && t[|t| - 1] == "" then DropTrailingEmpty(t[..|t| - 1]) else t
  }

  /** The read lines right-stripped, without the empty lines at the end of the file. */
  function TrimmedLines(lines: seq<string>): seq<string> {
    DropTrailingEmpty(RStripAll(lines))
  }

  /** Consecutive groups of four. */
  function Chunks(s: seq<string>): (bs: seq<seq<string>>)
    requires |s| % 4 == 0
    ensures |bs| == |s| / 4
    ensures forall b :: 0 <= b < |bs| ==> |bs[b]| == 4
    ensures forall b, k :: 0 <= b < |bs| && 0 <= k < 4 ==> bs[b][k] == s[4 * b + k]
    decreases |s|
  {
    if |s| == 0 then [] else [s[..4]] + Chunks(s[4..])
  }

  /** The lines `_get_four_line_blocks` groups: a single left-over line is dropped, two or
      three left-over lines are padded with empty lines. */
  function PaddedLines(t: seq<string>): (p: seq<string>)
    ensures |p| % 4 == 0
    ensures |p| / 4 == (|t| + 2) / 4
    ensures forall j :: 0 <= j < |p| ==> p[j] == if j < |t| then t[j] else ""
  {
    var left := |t| % 4;
    if left == 1 then t[..|t| - 1]
    else if left > 1 then t + seq(4 - left, _ => "")
    else t
  }

  /** `_get_four_line_blocks` after the file is read. */
  function FourLineBlocks(lines: seq<string>): (bs: seq<seq<string>>)
    ensures forall b :: b in bs ==> |b| == 4
    ensures |bs| == (|TrimmedLines(lines)| + 2) / 4
    ensures forall b, k :: 0 <= b < |bs| && 0 <= k < 4 ==>
      bs[b][k] == (var t := TrimmedLines(lines); if 4 * b + k < |t| then t[4 * b + k] else "")
  {
    Chunks(PaddedLines(TrimmedLines(lines)))
  }

  // ---------------------------------------------------------------- timing shapes

  /** `\d{2}:\d{2}:\d{2}\.\d{3}` starting at position `i` of `s`. */
  predicate IsClockAt(s: string, i: nat) {
    && i + 12 <= |s|
    && IsDigit(s[i]) && IsDigit(s[i + 1]) && s[i + 2] == ':'
    && IsDigit(s[i + 3]) && IsDigit(s[i + 4]) && s[i + 5] == ':'
    && IsDigit(s[i + 6]) && IsDigit(s[i + 7]) && s[i + 8] == '.'
    && IsDigit(s[i + 9]) && IsDigit(s[i + 10]) && IsDigit(s[i + 11])
  }

  /** A bare `HH:MM:SS.mmm` timestamp. */
  predicate IsClock(s: string) {
    |s| == 12 && IsClockAt(s, 0)
  }

  /** A line that begins `HH:MM:SS.mmm --> HH:MM:SS.mmm` (the block-start pattern, anchored at the start). */
  predicate IsTimingLine(l: string) {
    |l| >= 29 && IsClockAt(l, 0) && l[12..17] == " --> " && IsClockAt(l, 17)
  }

  /** An inline word-timing marker `<HH:MM:SS.mmm>` at position `i` of `s`. */
  predicate IsMarkerAt(s: string, i: nat) {
    i + 14 <= |s| && s[i] == '<' && IsClockAt(s, i + 1) && s[i + 13] == '>'
  }

  lemma ClockShift(s: string, i: nat)
    requires IsClockAt(s, i)
    ensures IsClock(s[i..i + 12])
  {
  }

  lemma ClockHasNoBrackets(s: string)
    requires IsClock(s)
    ensures RemoveChars(s, Brackets) == s
  {
    KeepAll(s, c => c !in Brackets);
  }

  /** A marker loses its angle brackets and keeps the timestamp between them. */
  lemma MarkerTime(m: string)
    requires |m| == 14 && IsMarkerAt(m, 0)
    ensures RemoveChars(m, Brackets) == m[1..13] && IsClock(m[1..13])
  {
    var p := c => c !in Brackets;
    assert m == [m[0]] + m[1..13] + [m[13]];
    KeepConcat([m[0]] + m[1..13], [m[13]], p);
    KeepConcat([m[0]], m[1..13], p);
    ClockShift(m, 1);
    KeepAll(m[1..13], p);
  }

  // ---------------------------------------------------------------- inline markers

  /** `re.findall` of the marker pattern: every marker, scanning left to right. */
  function Markers(s: string): (ms: seq<string>)
    ensures forall m :: m in ms ==> |m| == 14 && IsMarkerAt(m, 0)
    decreases |s|
  {
    if |s| == 0 then []
    else if IsMarkerAt(s, 0) then [s[..14]] + Markers(s[14..])
    else Markers(s[1..])
  }

  /** `re.split` on the marker pattern: the texts before, between and after the markers. */
  function Segments(s: string): (segs: seq<string>)
    ensures |segs| == |Markers(s)| + 1
    decreases |s|
  {
    if |s| == 0 then [""]
    else if IsMarkerAt(s, 0) then [""] + Segments(s[14..])
    else
      var rest := Segments(s[1..]);
      [[s[0]] + rest[0]] + rest[1..]
  }

  /** No marker lies wholly inside `t`. */
  predicate NoMarker(t: string) {
    forall p :: 0 <= p < |t| ==> !IsMarkerAt(t, p)
  }

  /** Whether a marker starts somewhere depends only on the fourteen characters from there. */
  lemma MarkerAtSame(a: string, i: nat, b: string, j: nat)
    requires i + 14 <= |a| && j + 14 <= |b| && a[i..i + 14] == b[j..j + 14]
    ensures IsMarkerAt(a, i) == IsMarkerAt(b, j)
  {
    var x, y := a[i..i + 14], b[j..j + 14];
    assert forall d :: 0 <= d < 14 ==> a[i + d] == x[d] && b[j + d] == y[d];
  }

  /** The segments `re.split` leaves hold no marker: `re.findall` found every one, and the
      first segment is where the line begins. */
  lemma {:induction false} SegmentsHoldNoMarker(s: string)
    ensures forall k :: 0 <= k < |Segments(s)| ==> NoMarker(Segments(s)[k])
    ensures |Segments(s)[0]| <= |s| && Segments(s)[0] == s[..|Segments(s)[0]|]
    decreases |s|
  {
    if |s| > 0 {
      if IsMarkerAt(s, 0) {
        SegmentsHoldNoMarker(s[14..]);
        var segs, rest := Segments(s), Segments(s[14..]);
        assert segs == [""] + rest;
        forall k | 0 <= k < |segs| ensures NoMarker(segs[k]) {
          if k > 0 {
            assert segs[k] == rest[k - 1];
          }
        }
      } else {
        SegmentsHoldNoMarker(s[1..]);
        SegmentsChar(s);
        var rest := Segments(s[1..]);
        NoMarkerCons(s, rest[0]);
        var segs := Segments(s);
        assert segs == [[s[0]] + rest[0]] + rest[1..];
        forall k | 0 <= k < |segs| ensures NoMarker(segs[k]) {
          if k > 0 {
            assert segs[k] == rest[k];
          }
        }
      }
    }
  }

  /** A character where no marker starts, put before a marker-free prefix of the rest of
      the line, gives a marker-free prefix of the line. */
  lemma NoMarkerCons(s: string, r: string)
    requires |s| > 0 && !IsMarkerAt(s, 0)
    requires |r| <= |s| - 1 && r == s[1..][..|r|] && NoMarker(r)
    ensures NoMarker([s[0]] + r) && [s[0]] + r == s[..|r| + 1]
  {
    var t := [s[0]] + r;
    assert t == s[..|r| + 1];
    forall p | 0 <= p < |t| ensures !IsMarkerAt(t, p) {
      if p + 14 <= |t| {
        if p == 0 {
          MarkerAtSame(t, 0, s, 0);
        } else {
          assert t[p..p + 14] == r[p - 1..p + 13];
          MarkerAtSame(t, p, r, p - 1);
        }
      }
    }
  }

  /** Puts the markers back between the segments. */
  function Interleave(segs: seq<string>, ms: seq<string>): string
    requires |segs| == |ms| + 1
    decreases |ms|
  {
    if |ms| == 0 then segs[0] else segs[0] + ms[0] + Interleave(segs[1..], ms[1..])
  }

  /** Segments and markers together are exactly the scanned line. */
  lemma {:induction false} MarkerSplitRoundTrip(s: string)
    ensures Interleave(Segments(s), Markers(s)) == s
    decreases |s|
  {
    if |s| > 0 {
      if IsMarkerAt(s, 0) {
        MarkerSplitRoundTrip(s[14..]);
        MarkerSplitMarker(s);
      } else {
        MarkerSplitRoundTrip(s[1..]);
        MarkerSplitChar(s);
      }
    }
  }

  lemma MarkerSplitMarker(s: string)
    requires |s| > 0 && IsMarkerAt(s, 0)
    requires Interleave(Segments(s[14..]), Markers(s[14..])) == s[14..]
    ensures Interleave(Segments(s), Markers(s)) == s
  {
    InterleaveMarker(s[..14], Segments(s[14..]), Markers(s[14..]));
    assert s == s[..14] + s[14..];
  }

  lemma MarkerSplitChar(s: string)
    requires |s| > 0 && !IsMarkerAt(s, 0)
    requires Interleave(Segments(s[1..]), Markers(s[1..])) == s[1..]
    ensures Interleave(Segments(s), Markers(s)) == s
  {
    SegmentsChar(s);
    InterleaveCharAt(s, Segments(s[1..]), Markers(s[1..]));
  }

  /** Where no marker starts, the scan moves one character on. */
  lemma SegmentsChar(s: string)
    requires |s| > 0 && !IsMarkerAt(s, 0)
    ensures Segments(s) == [[s[0]] + Segments(s[1..])[0]] + Segments(s[1..])[1..]
    ensures Markers(s) == Markers(s[1..])
  {
  }

  lemma InterleaveCharAt(s: string, segs: seq<string>, ms: seq<string>)
    requires |s| > 0 && |segs| == |ms| + 1 && Interleave(segs, ms) == s[1..]
    ensures Interleave([[s[0]] + segs[0]] + segs[1..], ms) == s
  {
    InterleaveChar(s[0], segs, ms);
    assert s == [s[0]] + s[1..];
  }

  /** A marker at the front opens an empty segment. */
  lemma InterleaveMarker(m: string, segs: seq<string>, ms: seq<string>)
    requires |segs| == |ms| + 1
    ensures Interleave([""] + segs, [m] + ms) == m + Interleave(segs, ms)
  {
    var a, b := [""] + segs, [m] + ms;
    assert a[0] == "" && a[1..] == segs;
    assert b[0] == m && b[1..] == ms;
    assert Interleave(a, b) == a[0] + b[0] + Interleave(segs, ms);
    assert a[0] + b[0] == m;
  }

  /** Any other character at the front joins the first segment. */
  lemma InterleaveChar(c: char, segs: seq<string>, ms: seq<string>)
    requires |segs| == |ms| + 1
    ensures Interleave([[c] + segs[0]] + segs[1..], ms) == [c] + Interleave(segs, ms)
  {
    var segs' := [[c] + segs[0]] + segs[1..];
    assert segs'[0] == [c] + segs[0] && segs'[1..] == segs[1..];
  }

  /** The segments that are not blank, stripped, in order. */
  function Pieces(segs: seq<string>): (ps: seq<string>)
    ensures |ps| <= |segs|
    ensures forall p :: p in ps ==> |p| > 0 && !IsSpace(p[0]) && !IsSpace(p[|p| - 1])
    ensures Unspaced(Flatten(ps)) == Unspaced(Flatten(segs))
  {
    if |segs| == 0 then []
    else
      var rest := Pieces(segs[1..]);
      PiecesStep(segs[0], segs[1..], rest);
      if Strip(segs[0]) == "" then rest else [Strip(segs[0])] + rest
  }

  /** One step of `Pieces`: keeping the stripped head, or dropping it when blank, keeps
      the visible characters. */
  lemma PiecesStep(s: string, tail: seq<string>, rest: seq<string>)
    requires Unspaced(Flatten(rest)) == Unspaced(Flatten(tail))
    ensures var ps := if Strip(s) == "" then rest else [Strip(s)] + rest;
      Unspaced(Flatten(ps)) == Unspaced(Flatten([s] + tail))
  {
    var p := Strip(s);
    assert ([s] + tail)[0] == s && ([s] + tail)[1..] == tail;
    assert Flatten([s] + tail) == s + Flatten(tail);
    StripUnspaced(s);
    UnspacedConcat(s, Flatten(tail));
    if p != "" {
      assert ([p] + rest)[0] == p && ([p] + rest)[1..] == rest;
      assert Flatten([p] + rest) == p + Flatten(rest);
      UnspacedConcat(p, Flatten(rest));
    }
  }

  /** One word and its bracketing markers; `None` where the source has no marker. */
  datatype RawTriple = RawTriple(start: Option<string>, end: Option<string>, text: string)

  /** The words of a sequence of triples. */
  function TripleTexts(tr: seq<RawTriple>): (r: seq<string>)
    ensures |r| == |tr| && forall i :: 0 <= i < |tr| ==> r[i] == tr[i].text
  {
    seq(|tr|, i requires 0 <= i < |tr| => tr[i].text)
  }

  /** An absent marker, or one `<HH:MM:SS.mmm>` marker. */
  predicate MarkerOrNone(o: Option<string>) {
    o.Some? ==> |o.value| == 14 && IsMarkerAt(o.value, 0)
  }

  /** Consecutive triples share a marker: each one's end is the next one's start. */
  predicate Chained(tr: seq<RawTriple>) {
    forall i, j :: 0 <= i && j == i + 1 < |tr| ==> tr[i].end.Some? && tr[i].end == tr[j].start
  }

  /** `_get_word_time_triples`: the i-th non-blank segment gets markers i-1 and i. The index
      is the position among the NON-BLANK segments, as in the source. */
  function WordTimeTriples(line: string): (ts: seq<RawTriple>)
    ensures TripleTexts(ts) == Pieces(Segments(line))
    ensures |ts| > 0 ==> ts[0].start == None
    ensures Chained(ts)
    ensures forall i :: 0 <= i < |ts| ==>
      (ts[i].start.Some? ==> ts[i].start.value in Markers(line)) && (ts[i].end.Some? ==> ts[i].end.value in Markers(line))
    ensures |ts| > 0 ==> (ts[|ts| - 1].end == None <==> |ts| == |Markers(line)| + 1)
    ensures |ts| <= |Markers(line)| + 1
    ensures forall i :: 0 <= i < |ts| ==>
      && ts[i].start == (if i > 0 then Some(Markers(line)[i - 1]) else None)
      && ts[i].end == (if i < |Markers(line)| then Some(Markers(line)[i]) else None)
  {
    var ms, ps := Markers(line), Pieces(Segments(line));
    var ts := Triples(ms, ps);
    assert TripleTexts(ts) == ps;
    assert |ts| <= |ms| + 1;
    ts
  }

  /** When no segment is blank, the i-th word is the text between markers i-1 and i of the
      line, and it is timed by exactly those two markers. */
  lemma WordsBetweenMarkers(line: string)
    requires forall k :: 0 <= k < |Segments(line)| ==> Strip(Segments(line)[k]) != ""
    ensures var ts, ms, segs := WordTimeTriples(line), Markers(line), Segments(line);
      && |ts| == |ms| + 1
      && forall i :: 0 <= i < |ts| ==>
        && ts[i].text == Strip(segs[i])
        && ts[i].start == (if i > 0 then Some(ms[i - 1]) else None)
        && ts[i].end == (if i < |ms| then Some(ms[i]) else None)
  {
    var ts, segs := WordTimeTriples(line), Segments(line);
    PiecesAllWords(segs);
    assert |ts| == |TripleTexts(ts)| == |segs|;
    forall i | 0 <= i < |ts| ensures ts[i].text == Strip(segs[i]) {
      assert ts[i].text == TripleTexts(ts)[i] == Pieces(segs)[i];
    }
  }

  /** With no blank segment, `Pieces` strips every segment and drops none. */
  lemma {:induction false} PiecesAllWords(segs: seq<string>)
    requires forall k :: 0 <= k < |segs| ==> Strip(segs[k]) != ""
    ensures |Pieces(segs)| == |segs|
    ensures forall k :: 0 <= k < |segs| ==> Pieces(segs)[k] == Strip(segs[k])
  {
    if |segs| > 0 {
      PiecesAllWords(segs[1..]);
      assert Pieces(segs) == [Strip(segs[0])] + Pieces(segs[1..]);
    }
  }

  /** Every marker a triple carries is a well-formed `<HH:MM:SS.mmm>` marker. */
  lemma TriplesCarryMarkers(line: string)
    ensures forall t :: t in WordTimeTriples(line) ==> MarkerOrNone(t.start) && MarkerOrNone(t.end)
  {
    var ts := WordTimeTriples(line);
    forall t | t in ts ensures MarkerOrNone(t.start) && MarkerOrNone(t.end) {
      var i :| 0 <= i < |ts| && ts[i] == t;
    }
  }

  /** Pairs the i-th text with markers i-1 and i. */
  function Triples(ms: seq<string>, ps: seq<string>): (ts: seq<RawTriple>)
    requires |ps| <= |ms| + 1
    ensures |ts| == |ps|
    ensures forall i :: 0 <= i < |ts| ==> ts[i].text == ps[i]
    ensures |ts| > 0 ==> ts[0].start == None
    ensures Chained(ts)
    ensures forall i :: 0 <= i < |ts| ==>
      (ts[i].start.Some? ==> ts[i].start.value in ms) && (ts[i].end.Some? ==> ts[i].end.value in ms)
    ensures |ts| > 0 ==> (ts[|ts| - 1].end == None <==> |ts| == |ms| + 1)
    ensures forall i :: 0 <= i < |ts| ==>
      && ts[i].start == (if i > 0 then Some(ms[i - 1]) else None)
      && ts[i].end == (if i < |ms| then Some(ms[i]) else None)
  {
    seq(|ps|, i requires 0 <= i < |ps| =>
      RawTriple(if i > 0 then Some(ms[i - 1]) else None, if i < |ms| then Some(ms[i]) else None, ps[i]))
  }

  // ---------------------------------------------------------------- extraction

  /** The spoken text of a block's third line, with the `<c>` and `</c>` style tags removed. */
  function CaptionText(line: string): string {
    ReplaceAll(ReplaceAll(line, "<c>", ""), "</c>", "")
  }

  /** The token for one triple: a missing start or end falls back to the block's own. */
  function ResolveTriple(t: RawTriple, blockStart: string, blockEnd: string): (tok: TimedToken)
    requires IsClock(blockStart) && IsClock(blockEnd) && MarkerOrNone(t.start) && MarkerOrNone(t.end)
    ensures IsClock(tok.start) && IsClock(tok.end) && tok.text == t.text
    ensures tok.start == (if t.start.Some? then t.start.value[1..13] else blockStart)
    ensures tok.end == (if t.end.Some? then t.end.value[1..13] else blockEnd)
  {
    ClockHasNoBrackets(blockStart);
    ClockHasNoBrackets(blockEnd);
    assert t.start.Some? ==> RemoveChars(t.start.value, Brackets) == t.start.value[1..13]
                              && IsClock(t.start.value[1..13]) by {
      if t.start.Some? { MarkerTime(t.start.value); }
    }
    assert t.end.Some? ==> RemoveChars(t.end.value, Brackets) == t.end.value[1..13]
                            && IsClock(t.end.value[1..13]) by {
      if t.end.Some? { MarkerTime(t.end.value); }
    }
    MakeToken(t.start.GetOr(blockStart), t.end.GetOr(blockEnd), t.text)
  }

  /** Each token ends where the next one starts. */
  predicate TokensChained(ts: seq<TimedToken>) {
    forall i, j :: 0 <= i && j == i + 1 < |ts| ==> ts[i].end == ts[j].start
  }

  /** Two triples sharing a marker resolve to tokens that meet at its timestamp. */
  lemma ResolveChained(a: RawTriple, b: RawTriple, blockStart: string, blockEnd: string)
    requires IsClock(blockStart) && IsClock(blockEnd)
    requires MarkerOrNone(a.start) && MarkerOrNone(a.end) && MarkerOrNone(b.start) && MarkerOrNone(b.end)
    requires a.end.Some? && a.end == b.start
    ensures ResolveTriple(a, blockStart, blockEnd).end == ResolveTriple(b, blockStart, blockEnd).start
  {
  }

  /** Resolves every triple against the block's own start and end. */
  function ResolveAll(tr: seq<RawTriple>, blockStart: string, blockEnd: string): (ts: seq<TimedToken>)
    requires IsClock(blockStart) && IsClock(blockEnd)
    requires forall t :: t in tr ==> MarkerOrNone(t.start) && MarkerOrNone(t.end)
    ensures |ts| == |tr|
    ensures forall i :: 0 <= i < |tr| ==> ts[i] == ResolveTriple(tr[i], blockStart, blockEnd)
  {
    seq(|tr|, i requires 0 <= i < |tr| => ResolveTriple(tr[i], blockStart, blockEnd))
  }

  /** Resolution keeps the words, yields timestamps only, and keeps the chain. */
  lemma ResolveAllShape(tr: seq<RawTriple>, blockStart: string, blockEnd: string)
    requires IsClock(blockStart) && IsClock(blockEnd)
    requires forall t :: t in tr ==> MarkerOrNone(t.start) && MarkerOrNone(t.end)
    ensures var ts := ResolveAll(tr, blockStart, blockEnd);
      && Texts(ts) == TripleTexts(tr)
      && (forall t :: t in ts ==> IsClock(t.start) && IsClock(t.end))
      && (|ts| > 0 && tr[0].start == None ==> ts[0].start == blockStart)
  {
    var ts := ResolveAll(tr, blockStart, blockEnd);
    assert Texts(ts) == TripleTexts(tr);
    forall t | t in ts ensures IsClock(t.start) && IsClock(t.end) {
      var i :| 0 <= i < |ts| && ts[i] == t;
    }
  }

  /** Resolving a chained run of triples gives tokens that each end where the next begins. */
  lemma ResolveAllChained(tr: seq<RawTriple>, blockStart: string, blockEnd: string)
    requires IsClock(blockStart) && IsClock(blockEnd)
    requires forall t :: t in tr ==> MarkerOrNone(t.start) && MarkerOrNone(t.end)
    requires Chained(tr)
    ensures TokensChained(ResolveAll(tr, blockStart, blockEnd))
  {
    var ts := ResolveAll(tr, blockStart, blockEnd);
    forall i, j | 0 <= i && j == i + 1 < |ts| ensures ts[i].end == ts[j].start {
      assert tr[i] in tr && tr[j] in tr;
      ResolveChained(tr[i], tr[j], blockStart, blockEnd);
    }
  }

  /** The tokens of one well-formed block (`line[0][:12]` and `line[0][17:29]` are its own start
      and end): one per non-blank text segment, each ending where the next starts. */
  function BlockTokens(block: seq<string>): (ts: seq<TimedToken>)
    requires |block| == 4 && IsTimingLine(block[0])
    ensures Texts(ts) == Pieces(Segments(CaptionText(block[2])))
    ensures forall t :: t in ts ==> IsClock(t.start) && IsClock(t.end)
    ensures |ts| > 0 ==> ts[0].start == block[0][..12]
    ensures TokensChained(ts)
  {
    ClockShift(block[0], 0);
    ClockShift(block[0], 17);
    LineTokens(CaptionText(block[2]), block[0][..12], block[0][17..29]);
    ResolveAll(WordTimeTriples(CaptionText(block[2])), block[0][..12], block[0][17..29])
  }

  /** The tokens of one caption text timed inside a block that runs from `s` to `e`. */
  lemma LineTokens(line: string, s: string, e: string)
    requires IsClock(s) && IsClock(e)
    ensures var ts := ResolveAll(WordTimeTriples(line), s, e);
      && Texts(ts) == Pieces(Segments(line))
      && (forall t :: t in ts ==> IsClock(t.start) && IsClock(t.end))
      && (|ts| > 0 ==> ts[0].start == s)
      && TokensChained(ts)
  {
    var tr := WordTimeTriples(line);
    TriplesCarryMarkers(line);
    ResolveAllShape(tr, s, e);
    ResolveAllChained(tr, s, e);
  }

  /** Tokens of every block that has the timing-line shape. */
  function TokensOf(blocks: seq<seq<string>>): (ts: seq<TimedToken>)
    requires forall b :: b in blocks ==> |b| == 4
    ensures forall t :: t in ts ==> IsClock(t.start) && IsClock(t.end) && |t.text| > 0
  {
    if |blocks| == 0 then []
    else
      var here := if IsTimingLine(blocks[0][0]) then BlockTokens(blocks[0]) else [];
      assert forall t :: t in here ==> t.text in Texts(here);
      here + TokensOf(blocks[1..])
  }

  /** The extraction loop of `_get_token_list`: block 0 is the header and yields nothing. */
  function ExtractTokens(blocks: seq<seq<string>>): seq<TimedToken>
    requires forall b :: b in blocks ==> |b| == 4
  {
    if |blocks| == 0 then [] else TokensOf(blocks[1..])
  }

  /** The header block and every block without the timing-line shape contribute no tokens. */
  lemma {:induction false} OnlyTimedBlocksCount(h: seq<string>, h': seq<string>, blocks: seq<seq<string>>, bad: seq<string>)
    requires |h| == 4 && |h'| == 4 && |bad| == 4 && !IsTimingLine(bad[0])
    requires forall b :: b in blocks ==> |b| == 4
    ensures ExtractTokens([h] + blocks) == ExtractTokens([h'] + blocks)
    ensures ExtractTokens([h] + [bad] + blocks) == ExtractTokens([h] + blocks)
  {
    assert ([h] + blocks)[1..] == blocks && ([h'] + blocks)[1..] == blocks;
    var bb := [bad] + blocks;
    assert ([h] + [bad] + blocks)[1..] == bb && bb[1..] == blocks;
  }

  // ---------------------------------------------------------------- rollover removal

  /** `b` repeats `a`: the same text, starting where `a` ends. */
  predicate IsRollover(a: TimedToken, b: TimedToken) {
    a.text == b.text && a.end == b.start
  }

  /** Token `k` stays: it is the first, or its predecessor in the ORIGINAL list is not a rollover of it. */
  predicate Survives(ts: seq<TimedToken>, k: nat)
    requires k < |ts|
  {
    k == 0 || !IsRollover(ts[k - 1], ts[k])
  }

  /** The positions, from `k` on, of the tokens that survive, in increasing order. */
  function Survivors(ts: seq<TimedToken>, k: nat): (ix: seq<nat>)
    requires k <= |ts|
    ensures forall j :: 0 <= j < |ix| ==> k <= ix[j] < |ts| && Survives(ts, ix[j])
    ensures forall j, j' :: 0 <= j < j' < |ix| ==> ix[j] < ix[j']
    ensures forall m :: k <= m < |ts| && Survives(ts, m) ==> m in ix
    decreases |ts| - k
  {
    if k == |ts| then [] else (if Survives(ts, k) then [k] else []) + Survivors(ts, k + 1)
  }

  /** The tokens that survive from position `k` on. */
  function DedupFrom(ts: seq<TimedToken>, k: nat): seq<TimedToken>
    requires k <= |ts|
    decreases |ts| - k
  {
    if k == |ts| then [] else (if Survives(ts, k) then [ts[k]] else []) + DedupFrom(ts, k + 1)
  }

  /** The rollover pass of `_get_token_list`: the list comprehension over the recorded duplicates. */
  function Dedup(ts: seq<TimedToken>): seq<TimedToken> {
    DedupFrom(ts, 0)
  }

  /** The surviving tokens are those at the surviving positions, field for field. */
  lemma {:induction false} DedupPicksSurvivors(ts: seq<TimedToken>, k: nat)
    requires k <= |ts|
    ensures var ix := Survivors(ts, k);
      |DedupFrom(ts, k)| == |ix| && forall j :: 0 <= j < |ix| ==> DedupFrom(ts, k)[j] == ts[ix[j]]
    decreases |ts| - k
  {
    if k < |ts| {
      DedupPicksSurvivors(ts, k + 1);
      var ix, d := Survivors(ts, k + 1), DedupFrom(ts, k + 1);
      var ix0, d0 := Survivors(ts, k), DedupFrom(ts, k);
      var o := if Survives(ts, k) then 1 else 0;
      assert |ix0| == |ix| + o && |d0| == |d| + o;
      forall j | o <= j < |ix0| ensures d0[j] == ts[ix0[j]] {
        assert ix0[j] == ix[j - o] && d0[j] == d[j - o];
      }
    }
  }

  /** Dedup keeps the first token and is a subsequence of its input. */
  lemma DedupShape(ts: seq<TimedToken>)
    ensures |Dedup(ts)| <= |ts|
    ensures |ts| > 0 ==> |Dedup(ts)| > 0 && Dedup(ts)[0] == ts[0]
    ensures forall t :: t in Dedup(ts) ==> t in ts
  {
    DedupPicksSurvivors(ts, 0);
    var ix := Survivors(ts, 0);
    if |ts| > 0 {
      assert Survives(ts, 0);
      assert ix[0] == 0;
    }
    SurvivorsBound(ts, 0);
    forall t | t in Dedup(ts)
      ensures t in ts
    {
      var j :| 0 <= j < |ix| && Dedup(ts)[j] == t;
      assert ts[ix[j]] == t;
    }
  }

  lemma {:induction false} SurvivorsBound(ts: seq<TimedToken>, k: nat)
    requires k <= |ts|
    ensures |Survivors(ts, k)| <= |ts| - k
    ensures |Survivors(ts, k)| == |ts| - k ==> forall m :: k <= m < |ts| ==> Survives(ts, m)
    decreases |ts| - k
  {
    if k < |ts| {
      SurvivorsBound(ts, k + 1);
    }
  }

  /** No two neighbours form a rollover pair. */
  predicate RolloverFree(ts: seq<TimedToken>) {
    forall k :: 0 < k < |ts| ==> !IsRollover(ts[k - 1], ts[k])
  }

  lemma {:induction false} DedupFromAll(ts: seq<TimedToken>, k: nat)
    requires k <= |ts| && RolloverFree(ts)
    ensures DedupFrom(ts, k) == ts[k..]
    decreases |ts| - k
  {
    if k < |ts| {
      DedupFromAll(ts, k + 1);
      assert ts[k..] == [ts[k]] + ts[k + 1..];
    }
  }

  /** Dedup changes nothing exactly when no neighbours form a rollover pair. */
  lemma DedupFixpoint(ts: seq<TimedToken>)
    ensures Dedup(ts) == ts <==> RolloverFree(ts)
  {
    if RolloverFree(ts) {
      DedupFromAll(ts, 0);
    } else {
      DedupPicksSurvivors(ts, 0);
      SurvivorsBound(ts, 0);
      var k :| 0 < k < |ts| && IsRollover(ts[k - 1], ts[k]);
      assert !Survives(ts, k);
    }
  }

  /** Because every pair is judged in the ORIGINAL list, a second pass can still merge: Dedup is
      not idempotent. */
  lemma DedupNotIdempotent()
    ensures var ts := [TimedToken("00:00:01.000", "00:00:02.000", "so"),
                       TimedToken("00:00:02.000", "00:00:03.000", "so"),
                       TimedToken("00:00:02.000", "00:00:05.000", "so")];
      Dedup(ts) == [ts[0], ts[2]] && Dedup(Dedup(ts)) == [ts[0]]
  {
    var ts := [TimedToken("00:00:01.000", "00:00:02.000", "so"),
               TimedToken("00:00:02.000", "00:00:03.000", "so"),
               TimedToken("00:00:02.000", "00:00:05.000", "so")];
    assert Survives(ts, 0) && !Survives(ts, 1) && Survives(ts, 2);
    assert DedupFrom(ts, 2) == [ts[2]];
    var d := [ts[0], ts[2]];
    assert Survives(d, 0) && !Survives(d, 1);
    assert DedupFrom(d, 1) == [];
  }

  /** The loop of `_get_token_list` as written: collect the duplicate positions, then keep the rest. */
  method RemoveRollovers(ts: seq<TimedToken>) returns (r: seq<TimedToken>)
    ensures r == Dedup(ts)
  {
    var dups: seq<nat> := [];
    var i := 0;
    while i + 1 < |ts|
      invariant 0 <= i <= if |ts| == 0 then 0 else |ts| - 1
      invariant forall m :: m in dups <==> 1 <= m <= i && !Survives(ts, m)
    {
      if ts[i].text == ts[i + 1].text && ts[i].end == ts[i + 1].start {
        dups := dups + [i + 1];
      }
      i := i + 1;
    }
    r := [];
    var k := 0;
    while k < |ts|
      invariant 0 <= k <= |ts|
      invariant r + DedupFrom(ts, k) == Dedup(ts)
    {
      assert DedupFrom(ts, k) == (if Survives(ts, k) then [ts[k]] else []) + DedupFrom(ts, k + 1);
      assert k !in dups <==> Survives(ts, k);
      if k !in dups {
        r := r + [ts[k]];
      }
      k := k + 1;
    }
  }

  /** `_get_token_list` on the lines of a track. */
  function TokenList(lines: seq<string>): (r: seq<TimedToken>)
    ensures var all := ExtractTokens(FourLineBlocks(lines));
      && |r| <= |all|
      && (|all| > 0 ==> |r| > 0 && r[0] == all[0])
  {
    DedupShape(ExtractTokens(FourLineBlocks(lines)));
    Dedup(ExtractTokens(FourLineBlocks(lines)))
  }

  /** Every token the track yields carries two bare timestamps and a non-empty text. */
  lemma TokenListWellFormed(lines: seq<string>)
    ensures forall t :: t in TokenList(lines) ==> IsClock(t.start) && IsClock(t.end) && |t.text| > 0
  {
    DedupShape(ExtractTokens(FourLineBlocks(lines)));
  }
}
