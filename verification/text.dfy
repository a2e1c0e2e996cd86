/** The handful of Python `str` operations the caption tools rely on, over `seq<char>`. */
module Text {

  /** The characters Python's `str.isspace()` accepts: what `split()`, `strip()` and `rstrip()` remove. */
  predicate IsSpace(c: char) {
    || c == ' ' || c == '\t' || c == '\n' || c == '\r' || c == '\U{000B}' || c == '\U{000C}'
    || ('\U{001C}' <= c <= '\U{001F}') || c == '\U{0085}' || c == '\U{00A0}' || c == '\U{1680}'
    || ('\U{2000}' <= c <= '\U{200A}') || c == '\U{2028}' || c == '\U{2029}' || c == '\U{202F}'
    || c == '\U{205F}' || c == '\U{3000}'
  }

  predicate IsVisible(c: char) {
    !IsSpace(c)
  }

  /** An ASCII decimal digit. */
  predicate IsDigit(c: char) {
    '0' <= c <= '9'
  }

  /** `s` holds no whitespace character at all. */
  predicate Unbroken(s: string) {
    forall i :: 0 <= i < |s| ==> !IsSpace(s[i])
  }

  /** No character of `a` occurs in `b`. */
  predicate SharesNoChar(a: string, b: string) {
    forall i, j :: 0 <= i < |a| && 0 <= j < |b| ==> a[i] != b[j]
  }

  /** No character of `s` is one of `cs`. */
  predicate Avoids(s: string, cs: set<char>) {
    forall i :: 0 <= i < |s| ==> s[i] !in cs
  }

  /** The characters of `s` that satisfy `p`, in order. */
  function Keep(s: string, p: char -> bool): (r: string)
    ensures |r| <= |s|
    ensures forall i :: 0 <= i < |r| ==> p(r[i])
  {
    if |s| == 0 then "" else (if p(s[0]) then [s[0]] else "") + Keep(s[1..], p)
  }

  /** `s` with all whitespace deleted: the content two texts must share to be the same words. */
  function Unspaced(s: string): string {
    Keep(s, IsVisible)
  }

  /** Python's `re.sub('[...]', '', s)` for a character class `cs`. */
  function RemoveChars(s: string, cs: set<char>): (r: string)
    ensures Avoids(r, cs)
  {
    Keep(s, c => c !in cs)
  }

  /** Removing characters a text does not hold leaves it as it is. */
  lemma RemoveNothing(s: string, cs: set<char>)
    ensures Avoids(s, cs) ==> RemoveChars(s, cs) == s
  {
    if Avoids(s, cs) {
      KeepAll(s, c => c !in cs);
    }
  }

  /** Removing characters looks at one character at a time. */
  lemma RemoveCharsCons(c: char, s: string, cs: set<char>)
    ensures RemoveChars([c] + s, cs) == (if c in cs then "" else [c]) + RemoveChars(s, cs)
  {
    assert ([c] + s)[0] == c && ([c] + s)[1..] == s;
  }

  lemma {:induction false} KeepConcat(a: string, b: string, p: char -> bool)
    ensures Keep(a + b, p) == Keep(a, p) + Keep(b, p)
    decreases |a|
  {
    if |a| > 0 {
      assert (a + b)[0] == a[0] && (a + b)[1..] == a[1..] + b;
      KeepConcat(a[1..], b, p);
      var h := if p(a[0]) then [a[0]] else "";
      calc {
        Keep(a + b, p);
        h + Keep(a[1..] + b, p);
        h + (Keep(a[1..], p) + Keep(b, p));
        (h + Keep(a[1..], p)) + Keep(b, p);
      }
    } else {
      assert a + b == b;
    }
  }

  lemma {:induction false} KeepAll(s: string, p: char -> bool)
    requires forall i :: 0 <= i < |s| ==> p(s[i])
    ensures Keep(s, p) == s
    decreases |s|
  {
    if |s| > 0 {
      KeepAll(s[1..], p);
    }
  }

  lemma {:induction false} KeepNone(s: string, p: char -> bool)
    requires forall i :: 0 <= i < |s| ==> !p(s[i])
    ensures Keep(s, p) == ""
    decreases |s|
  {
    if |s| > 0 {
      KeepNone(s[1..], p);
    }
  }

  /** Two filters can be applied in either order. */
  lemma {:induction false} KeepSwap(s: string, p: char -> bool, q: char -> bool)
    ensures Keep(Keep(s, p), q) == Keep(Keep(s, q), p)
    decreases |s|
  {
    if |s| > 0 {
      KeepSwap(s[1..], p, q);
      var hp := if p(s[0]) then [s[0]] else "";
      var hq := if q(s[0]) then [s[0]] else "";
      KeepConcat(hp, Keep(s[1..], p), q);
      KeepConcat(hq, Keep(s[1..], q), p);
    }
  }

  /** The end of `s[..n]` once its trailing whitespace is dropped. */
  function TrimEnd(s: string, n: nat): (e: nat)
    requires n <= |s|
    ensures e <= n
    ensures e == 0 || !IsSpace(s[e - 1])
    ensures forall i :: e <= i < n ==> IsSpace(s[i])
    decreases n
  {
    if n > 0 && IsSpace(s[n - 1]) then TrimEnd(s, n - 1) else n
  }

  /** The start of `s[b..e]` once its leading whitespace is dropped. */
  function TrimStart(s: string, b: nat, e: nat): (b': nat)
    requires b <= e <= |s|
    ensures b <= b' <= e
    ensures b' == e || !IsSpace(s[b'])
    ensures forall i :: b <= i < b' ==> IsSpace(s[i])
    decreases e - b
  {
    if b < e && IsSpace(s[b]) then TrimStart(s, b + 1, e) else b
  }

  /** Python's `s.rstrip()`: a prefix of `s` not ending in whitespace, and only whitespace dropped. */
  function RStrip(s: string): (r: string)
    ensures |r| <= |s| && r == s[..|r|]
    ensures |r| == 0 || !IsSpace(r[|r| - 1])
    ensures forall i :: |r| <= i < |s| ==> IsSpace(s[i])
  {
    s[..TrimEnd(s, |s|)]
  }

  /** Where `s.strip()` starts and ends inside `s`. */
  function StripBounds(s: string): (be: (nat, nat))
    ensures be.0 <= be.1 <= |s|
    ensures be.0 == be.1 || (!IsSpace(s[be.0]) && !IsSpace(s[be.1 - 1]))
    ensures forall i :: 0 <= i < be.0 ==> IsSpace(s[i])
    ensures forall i :: be.1 <= i < |s| ==> IsSpace(s[i])
  {
    var e := TrimEnd(s, |s|);
    (TrimStart(s, 0, e), e)
  }

  /** `r` sits at position `b` of `s`, and everything of `s` around it is whitespace. */
  predicate StripsTo(s: string, b: nat, r: string) {
    && b + |r| <= |s| && r == s[b..b + |r|]
    && (forall i :: 0 <= i < b ==> IsSpace(s[i]))
    && (forall i :: b + |r| <= i < |s| ==> IsSpace(s[i]))
  }

  /** Python's `s.strip()`. */
  function Strip(s: string): (r: string)
    ensures |r| <= |s|
    ensures |r| == 0 || (!IsSpace(r[0]) && !IsSpace(r[|r| - 1]))
  {
    s[StripBounds(s).0..StripBounds(s).1]
  }

  /** `s.strip()` is the piece of `s` left once the whitespace around it is cut; it begins
      and ends with a visible character unless it is empty. */
  lemma StripPiece(s: string)
    ensures exists b :: StripsTo(s, b, Strip(s))
    ensures |Strip(s)| == 0 || (!IsSpace(Strip(s)[0]) && !IsSpace(Strip(s)[|Strip(s)| - 1]))
  {
    var (b, e) := StripBounds(s);
    assert Strip(s) == s[b..e];
    assert StripsTo(s, b, s[b..e]);
  }

  /** Only one piece of `s` fits the description of `s.strip()`. */
  lemma StripUnique(s: string, b: nat, r: string)
    requires StripsTo(s, b, r)
    requires |r| == 0 || (!IsSpace(r[0]) && !IsSpace(r[|r| - 1]))
    ensures r == Strip(s)
  {
    var t := Strip(s);
    StripPiece(s);
    var b': nat :| StripsTo(s, b', t);
    if |r| > 0 && |t| > 0 {
      assert s[b] == r[0] && s[b'] == t[0];
      assert b == b';
      assert s[b + |r| - 1] == r[|r| - 1] && s[b + |t| - 1] == t[|t| - 1];
      assert |r| == |t|;
    }
  }

  lemma AllSpaceUnspaced(s: string)
    requires forall i :: 0 <= i < |s| ==> IsSpace(s[i])
    ensures Unspaced(s) == ""
  {
    KeepNone(s, IsVisible);
  }

  /** Dropping trailing whitespace keeps every visible character. */
  lemma UnspacedDropTail(s: string, e: nat)
    requires e <= |s| && forall i :: e <= i < |s| ==> IsSpace(s[i])
    ensures Unspaced(s[..e]) == Unspaced(s)
  {
    var tail := s[e..];
    forall i | 0 <= i < |tail| ensures IsSpace(tail[i]) {
      assert tail[i] == s[e + i];
    }
    AllSpaceUnspaced(tail);
    assert s == s[..e] + tail;
    UnspacedConcat(s[..e], tail);
  }

  /** Dropping leading whitespace keeps every visible character. */
  lemma UnspacedDropHead(s: string, b: nat)
    requires b <= |s| && forall i :: 0 <= i < b ==> IsSpace(s[i])
    ensures Unspaced(s[b..]) == Unspaced(s)
  {
    var head := s[..b];
    AllSpaceUnspaced(head);
    assert s == head + s[b..];
    UnspacedConcat(head, s[b..]);
  }

  /** Stripping keeps every visible character. */
  lemma StripUnspaced(s: string)
    ensures Unspaced(Strip(s)) == Unspaced(s)
  {
    var (b, e) := StripBounds(s);
    UnspacedDropTail(s, e);
    var t := s[..e];
    assert t[b..] == s[b..e];
    UnspacedDropHead(t, b);
  }

  lemma UnspacedConcat(a: string, b: string)
    ensures Unspaced(a + b) == Unspaced(a) + Unspaced(b)
  {
    KeepConcat(a, b, IsVisible);
  }

  lemma UnspacedUnbroken(s: string)
    requires Unbroken(s)
    ensures Unspaced(s) == s
  {
    KeepAll(s, IsVisible);
  }

  /** A text without whitespace is its own strip. */
  lemma StripUnbroken(s: string)
    requires Unbroken(s)
    ensures Strip(s) == s
  {
    if |s| > 0 {
      assert !IsSpace(s[0]);
    }
  }

  /** `s.strip()` is a contiguous piece of `s`: every character of it is a character of `s`. */
  lemma StripInside(s: string, c: char)
    requires c in Strip(s)
    ensures c in s
  {
    var (b, e) := StripBounds(s);
    var i :| 0 <= i < |Strip(s)| && Strip(s)[i] == c;
    assert s[b + i] == c;
  }

  /** Stripping a text that ends in whitespace makes it strictly shorter. */
  lemma StripShortens(s: string)
    requires |s| > 0 && IsSpace(s[|s| - 1])
    ensures |Strip(s)| < |s|
  {
  }

  /** Stripping a text that ends in a visible character keeps that character last. */
  lemma StripKeepsLast(s: string)
    requires |s| > 0 && !IsSpace(s[|s| - 1])
    ensures |Strip(s)| > 0 && Strip(s)[|Strip(s)| - 1] == s[|s| - 1]
  {
    var (b, e) := StripBounds(s);
    assert e == |s|;
  }

  /** Stripping one word followed by a blank gives back the word. */
  lemma WordSpaceStrip(w: string)
    requires Unbroken(w)
    ensures Strip(w + " ") == w
  {
    var s := w + " ";
    assert TrimEnd(s, |s|) == TrimEnd(s, |w|);
    if |w| > 0 {
      assert !IsSpace(s[|w| - 1]) && !IsSpace(s[0]);
    }
    assert s[..|w|] == w;
  }

  /** Concatenation of a sequence of strings. */
  function Flatten(ss: seq<string>): string {
    if |ss| == 0 then "" else ss[0] + Flatten(ss[1..])
  }

  lemma {:induction false} FlattenConcat(a: seq<string>, b: seq<string>)
    ensures Flatten(a + b) == Flatten(a) + Flatten(b)
    decreases |a|
  {
    if |a| > 0 {
      assert (a + b)[0] == a[0] && (a + b)[1..] == a[1..] + b;
      FlattenConcat(a[1..], b);
      calc {
        Flatten(a + b);
        a[0] + Flatten(a[1..] + b);
        a[0] + (Flatten(a[1..]) + Flatten(b));
        (a[0] + Flatten(a[1..])) + Flatten(b);
      }
    } else {
      assert a + b == b;
    }
  }

  /** End of the run of visible characters that starts at `i`. */
  function WordEnd(s: string, i: nat): (j: nat)
    requires i <= |s|
    ensures i <= j <= |s|
    ensures forall k :: i <= k < j ==> !IsSpace(s[k])
    ensures j == |s| || IsSpace(s[j])
    decreases |s| - i
  {
    if i == |s| || IsSpace(s[i]) then i else WordEnd(s, i + 1)
  }

  /** Python's `s.split()`: the maximal runs of visible characters, in order. */
  function Words(s: string): (ws: seq<string>)
    ensures forall w :: w in ws ==> |w| > 0 && Unbroken(w)
    ensures Flatten(ws) == Unspaced(s)
    decreases |s|
  {
    if |s| == 0 then []
    else if IsSpace(s[0]) then
      assert s == [s[0]] + s[1..];
      UnspacedConcat([s[0]], s[1..]);
      Words(s[1..])
    else
      var j := WordEnd(s, 0);
      assert s == s[..j] + s[j..];
      UnspacedConcat(s[..j], s[j..]);
      UnspacedUnbroken(s[..j]);
      var rest := Words(s[j..]);
      assert ([s[..j]] + rest)[1..] == rest;
      [s[..j]] + rest
  }

  /** A single word splits into just itself. */
  lemma SingleWord(w: string)
    requires |w| > 0 && Unbroken(w)
    ensures Words(w) == [w]
  {
    assert WordEnd(w, 0) == |w|;
    assert w[..|w|] == w && w[|w|..] == "";
  }

  /** A word followed by a blank is split off as the first word. */
  lemma WordsLead(w: string, t: string)
    requires |w| > 0 && Unbroken(w)
    ensures Words(w + [' '] + t) == [w] + Words(t)
  {
    var s := w + [' '] + t;
    assert WordEnd(s, 0) == |w| by {
      WordEndAt(s, 0, |w|);
    }
    assert s[..|w|] == w;
    assert s[|w|..] == [' '] + t;
    assert ([' '] + t)[1..] == t;
  }

  lemma {:induction false} WordEndAt(s: string, i: nat, j: nat)
    requires i <= j < |s| && IsSpace(s[j])
    requires forall k :: i <= k < j ==> !IsSpace(s[k])
    ensures WordEnd(s, i) == j
    decreases j - i
  {
    if i < j {
      WordEndAt(s, i + 1, j);
    }
  }

  /** Joining words with single blanks and splitting the text again gives the words back. */
  lemma {:induction false} WordsJoin(ws: seq<string>)
    requires |ws| >= 1
    requires forall w :: w in ws ==> |w| > 0 && Unbroken(w)
    ensures Words(Join(ws, ' ')) == ws
  {
    if |ws| == 1 {
      SingleWord(ws[0]);
    } else {
      assert ws[0] in ws;
      assert forall w :: w in ws[1..] ==> w in ws;
      WordsJoin(ws[1..]);
      WordsLead(ws[0], Join(ws[1..], ' '));
      assert ws == [ws[0]] + ws[1..];
    }
  }

  /** Python's `re.split('[...]', s)` for a character class `delims` (and `s.split(c)` for one character). */
  function SplitAny(s: string, delims: set<char>): (fs: seq<string>)
    ensures |fs| >= 1
    ensures forall k :: 0 <= k < |fs| ==> Avoids(fs[k], delims)
    decreases |s|
  {
    if |s| == 0 then [""]
    else if s[0] in delims then
      var rest := SplitAny(s[1..], delims);
      assert forall k :: 1 <= k <= |rest| ==> ([""] + rest)[k] == rest[k - 1];
      [""] + rest
    else
      var rest := SplitAny(s[1..], delims);
      assert forall k :: 1 <= k < |rest| ==> rest[1..][k - 1] == rest[k];
      [[s[0]] + rest[0]] + rest[1..]
  }

  /** `sep.join(fs)` for a one-character separator. */
  function Join(fs: seq<string>, sep: char): string
    requires |fs| >= 1
  {
    if |fs| == 1 then fs[0] else fs[0] + [sep] + Join(fs[1..], sep)
  }

  /** Splitting on one character and joining back with it restores the text. */
  lemma {:induction false} SplitJoin(s: string, sep: char)
    ensures Join(SplitAny(s, {sep}), sep) == s
    decreases |s|
  {
    if |s| > 0 {
      var rest := SplitAny(s[1..], {sep});
      SplitJoin(s[1..], sep);
      if s[0] == sep {
        assert ([""] + rest)[1..] == rest;
      } else {
        var fs := [[s[0]] + rest[0]] + rest[1..];
        if |rest| == 1 {
          assert Join(fs, sep) == [s[0]] + rest[0];
        } else {
          assert fs[1..] == rest[1..];
          assert Join(rest, sep) == rest[0] + [sep] + Join(rest[1..], sep);
        }
      }
    }
  }

  /** Splitting on a character class loses exactly the delimiter characters. */
  lemma {:induction false} SplitAnyContent(s: string, delims: set<char>)
    ensures Flatten(SplitAny(s, delims)) == RemoveChars(s, delims)
    decreases |s|
  {
    if |s| > 0 {
      var rest := SplitAny(s[1..], delims);
      SplitAnyContent(s[1..], delims);
      if s[0] in delims {
        assert ([""] + rest)[1..] == rest;
      } else {
        var fs := [[s[0]] + rest[0]] + rest[1..];
        assert fs[1..] == rest[1..];
        assert Flatten(rest) == rest[0] + Flatten(rest[1..]);
      }
    }
  }

  /** The first field of a split is the text up to the first delimiter, or all of it. */
  lemma {:induction false} SplitAnyHead(s: string, delims: set<char>)
    ensures var h := SplitAny(s, delims)[0];
      StartsWith(s, h) && (|h| == |s| || s[|h|] in delims)
    decreases |s|
  {
    if |s| > 0 && s[0] !in delims {
      SplitAnyHead(s[1..], delims);
      var h' := SplitAny(s[1..], delims)[0];
      assert SplitAny(s, delims)[0] == [s[0]] + h';
      assert s[..|h'| + 1] == [s[0]] + s[1..][..|h'|];
    }
  }

  /** Text without delimiters is a single field. */
  lemma {:induction false} SplitAnyNone(s: string, delims: set<char>)
    requires Avoids(s, delims)
    ensures SplitAny(s, delims) == [s]
    decreases |s|
  {
    if |s| > 0 {
      SplitAnyNone(s[1..], delims);
      assert [s[0]] + s[1..] == s;
    }
  }

  /** Splitting text joined at a delimiter splits each side: the side's last and first
      fields stay apart. */
  lemma {:induction false} SplitAnyAt(a: string, c: char, b: string, delims: set<char>)
    requires c in delims
    ensures SplitAny(a + [c] + b, delims) == SplitAny(a, delims) + SplitAny(b, delims)
    decreases |a|
  {
    if |a| == 0 {
      assert a + [c] + b == [c] + b;
      assert ([c] + b)[1..] == b;
    } else {
      var s := a + [c] + b;
      assert s[0] == a[0] && s[1..] == a[1..] + [c] + b;
      SplitAnyAt(a[1..], c, b, delims);
      var ra, rb := SplitAny(a[1..], delims), SplitAny(b, delims);
      assert SplitAny(s[1..], delims) == ra + rb;
      if a[0] !in delims {
        assert (ra + rb)[0] == ra[0];
        assert (ra + rb)[1..] == ra[1..] + rb;
        assert SplitAny(s, delims) == [[a[0]] + ra[0]] + (ra[1..] + rb);
      }
    }
  }

  predicate StartsWith(s: string, p: string) {
    |p| <= |s| && s[..|p|] == p
  }

  /** Python's `p in s` for strings. */
  predicate Contains(s: string, p: string)
    decreases |s|
  {
    StartsWith(s, p) || (|s| > 0 && Contains(s[1..], p))
  }

  lemma {:induction false} ContainsFits(s: string, p: string)
    requires Contains(s, p)
    ensures |p| <= |s|
    decreases |s|
  {
    if !StartsWith(s, p) {
      ContainsFits(s[1..], p);
    }
  }

  lemma {:induction false} ContainsAt(s: string, p: string, i: nat)
    requires i + |p| <= |s| && s[i..i + |p|] == p
    ensures Contains(s, p)
    decreases i
  {
    if i > 0 {
      assert s[1..][i - 1..i - 1 + |p|] == s[i..i + |p|];
      ContainsAt(s[1..], p, i - 1);
    }
  }

  /** Python's slice `s[k:]`, which is empty rather than an error when `k` is past the end. */
  function Drop(s: string, k: nat): string {
    if k >= |s| then "" else s[k..]
  }

  /** Python's `s.replace(pat, rep)` (and `re.sub` of a literal): leftmost, non-overlapping, no rescan. */
  function ReplaceAll(s: string, pat: string, rep: string): string
    requires |pat| > 0
    decreases |s|
  {
    if |s| == 0 then ""
    else if StartsWith(s, pat) then rep + ReplaceAll(s[|pat|..], pat, rep)
    else [s[0]] + ReplaceAll(s[1..], pat, rep)
  }

  /** With a replacement sharing no character with the pattern, the output continues with
      the tail `pat[m..]` of the pattern only where the input does. */
  lemma {:induction false} ReplaceAllPrefix(t: string, pat: string, rep: string, m: nat)
    requires 1 <= m < |pat| && |rep| > 0 && SharesNoChar(rep, pat)
    requires StartsWith(ReplaceAll(t, pat, rep), pat[m..])
    ensures StartsWith(t, pat[m..])
    decreases |t|
  {
    var r := ReplaceAll(t, pat, rep);
    assert r[0] == pat[m];
    if StartsWith(t, pat) {
    } else if m + 1 < |pat| {
      assert r[1..] == ReplaceAll(t[1..], pat, rep);
      assert pat[m..][1..] == pat[m + 1..];
      ReplaceAllPrefix(t[1..], pat, rep, m + 1);
      assert t[..|pat| - m] == [t[0]] + t[1..][..|pat| - m - 1];
    } else {
      assert t[..1] == [t[0]];
    }
  }

  /** After replacing every `pat` by a text sharing no character with it, no `pat` is left. */
  lemma {:induction false} ReplaceAllRemoves(s: string, pat: string, rep: string)
    requires |pat| > 0 && |rep| > 0 && SharesNoChar(rep, pat)
    ensures !Contains(ReplaceAll(s, pat, rep), pat)
    decreases |s|
  {
    if |s| > 0 {
      if StartsWith(s, pat) {
        var rest := ReplaceAll(s[|pat|..], pat, rep);
        ReplaceAllRemoves(s[|pat|..], pat, rep);
        ContainsAfterClean(rep, rest, pat);
      } else {
        var rest := ReplaceAll(s[1..], pat, rep);
        ReplaceAllRemoves(s[1..], pat, rep);
        var r := [s[0]] + rest;
        assert r[1..] == rest;
        if StartsWith(r, pat) {
          if |pat| > 1 {
            assert StartsWith(rest, pat[1..]);
            ReplaceAllPrefix(s[1..], pat, rep, 1);
          }
        }
      }
    }
  }

  /** An occurrence at the front of `a + b` ends inside `a` when `a`'s last character is not in the pattern. */
  lemma PatternInside(a: string, b: string, pat: string)
    requires |a| > 0 && StartsWith(a + b, pat)
    requires forall j :: 0 <= j < |pat| ==> pat[j] != a[|a| - 1]
    ensures |pat| < |a|
  {
    var s := a + b;
    assert forall j :: 0 <= j < |pat| ==> pat[j] == s[j];
    assert s[|a| - 1] == a[|a| - 1];
  }

  /** Replacing distributes over a cut that no occurrence can straddle: the first part
      ends in a character the pattern does not hold. */
  lemma {:induction false} ReplaceAllConcat(a: string, b: string, pat: string, rep: string)
    requires |pat| > 0 && |a| > 0
    requires forall j :: 0 <= j < |pat| ==> pat[j] != a[|a| - 1]
    ensures ReplaceAll(a + b, pat, rep) == ReplaceAll(a, pat, rep) + ReplaceAll(b, pat, rep)
    decreases |a|
  {
    if StartsWith(a + b, pat) {
      ReplaceAllConcatMatch(a, b, pat);
      ReplaceAllConcat(a[|pat|..], b, pat, rep);
      ReplaceAllConcatMatchStep(a, b, pat, rep);
    } else if |a| == 1 {
      ReplaceAllConcatLast(a, b, pat, rep);
    } else {
      ReplaceAllConcat(a[1..], b, pat, rep);
      ReplaceAllConcatSkipStep(a, b, pat, rep);
    }
  }

  /** A match at the front of `a + b` lies inside `a` and leaves a non-empty rest of `a`. */
  lemma ReplaceAllConcatMatch(a: string, b: string, pat: string)
    requires |pat| > 0 && |a| > 0
    requires forall j :: 0 <= j < |pat| ==> pat[j] != a[|a| - 1]
    requires StartsWith(a + b, pat)
    ensures |pat| < |a| && StartsWith(a, pat)
    ensures forall j :: 0 <= j < |pat| ==> pat[j] != a[|pat|..][|a[|pat|..]| - 1]
  {
    var s := a + b;
    PatternInside(a, b, pat);
    assert a[..|pat|] == s[..|pat|];
  }

  lemma ReplaceAllConcatMatchStep(a: string, b: string, pat: string, rep: string)
    requires |pat| > 0 && |pat| < |a| && StartsWith(a, pat)
    requires ReplaceAll(a[|pat|..] + b, pat, rep) == ReplaceAll(a[|pat|..], pat, rep) + ReplaceAll(b, pat, rep)
    ensures ReplaceAll(a + b, pat, rep) == ReplaceAll(a, pat, rep) + ReplaceAll(b, pat, rep)
  {
    var s := a + b;
    assert s[..|pat|] == a[..|pat|];
    assert s[|pat|..] == a[|pat|..] + b;
  }

  lemma ReplaceAllConcatSkipStep(a: string, b: string, pat: string, rep: string)
    requires |pat| > 0 && |a| > 1 && !StartsWith(a + b, pat)
    requires ReplaceAll(a[1..] + b, pat, rep) == ReplaceAll(a[1..], pat, rep) + ReplaceAll(b, pat, rep)
    ensures ReplaceAll(a + b, pat, rep) == ReplaceAll(a, pat, rep) + ReplaceAll(b, pat, rep)
  {
    var s := a + b;
    assert s[1..] == a[1..] + b;
  }

  lemma ReplaceAllConcatLast(a: string, b: string, pat: string, rep: string)
    requires |pat| > 0 && |a| == 1 && !StartsWith(a + b, pat)
    ensures ReplaceAll(a + b, pat, rep) == ReplaceAll(a, pat, rep) + ReplaceAll(b, pat, rep)
  {
    var s := a + b;
    assert s[1..] == b;
    assert ReplaceAll(a, pat, rep) == [a[0]] + ReplaceAll("", pat, rep);
  }

  /** A pattern found in `a + b`, where `a` holds none of its characters, lies in `b`. */
  lemma {:induction false} ContainsAfterClean(a: string, b: string, pat: string)
    requires |pat| > 0 && SharesNoChar(a, pat)
    requires !Contains(b, pat)
    ensures !Contains(a + b, pat)
    decreases |a|
  {
    if |a| > 0 {
      assert (a + b)[0] == a[0];
      assert !StartsWith(a + b, pat);
      assert (a + b)[1..] == a[1..] + b;
      ContainsAfterClean(a[1..], b, pat);
    } else {
      assert a + b == b;
    }
  }

  /** Python's `a <= b` on strings: lexicographic by code point, a proper prefix first. */
  predicate LexLe(a: string, b: string)
    decreases |a|
  {
    |a| == 0 || (|b| > 0 && (a[0] < b[0] || (a[0] == b[0] && LexLe(a[1..], b[1..]))))
  }

  lemma {:induction false} LexLeTotal(a: string, b: string)
    ensures LexLe(a, b) || LexLe(b, a)
    decreases |a|
  {
    if |a| > 0 && |b| > 0 && a[0] == b[0] {
      LexLeTotal(a[1..], b[1..]);
    }
  }

  lemma {:induction false} LexLeTrans(a: string, b: string, c: string)
    requires LexLe(a, b) && LexLe(b, c)
    ensures LexLe(a, c)
    decreases |a|
  {
    if |a| > 0 && a[0] == b[0] && b[0] == c[0] {
      LexLeTrans(a[1..], b[1..], c[1..]);
    }
  }

  /** The last position below `n` holding `c`, or -1. */
  function RFindBelow(s: string, c: char, n: nat): (k: int)
    requires n <= |s|
    ensures -1 <= k < n
    ensures k >= 0 ==> s[k] == c
    ensures forall j :: k < j < n ==> s[j] != c
    decreases n
  {
    if n == 0 then -1 else if s[n - 1] == c then n - 1 else RFindBelow(s, c, n - 1)
  }

  /** Python's `s.rfind(c)`: the last position of `c` in `s`, or -1 when there is none. */
  function RFind(s: string, c: char): (k: int)
    ensures -1 <= k < |s|
    ensures k == -1 <==> c !in s
    ensures k >= 0 ==> s[k] == c && forall j :: k < j < |s| ==> s[j] != c
  {
    RFindBelow(s, c, |s|)
  }

  function DigitChar(d: nat): char
    requires d < 10
  {
    ('0' as int + d) as char
  }

  /** Python's `str(n)` for a non-negative integer. */
  function NatToString(n: nat): (r: string)
    ensures |r| >= 1
    ensures forall i :: 0 <= i < |r| ==> IsDigit(r[i])
  {
    if n < 10 then [DigitChar(n)] else NatToString(n / 10) + [DigitChar(n % 10)]
  }

  /** Different numbers print differently. */
  lemma {:induction false} NatToStringInjective(a: nat, b: nat)
    requires NatToString(a) == NatToString(b)
    ensures a == b
    decreases a
  {
    var sa, sb := NatToString(a), NatToString(b);
    if a >= 10 && b >= 10 {
      assert sa[|sa| - 1] == DigitChar(a % 10) && sb[|sb| - 1] == DigitChar(b % 10);
      assert sa[..|sa| - 1] == NatToString(a / 10) && sb[..|sb| - 1] == NatToString(b / 10);
      NatToStringInjective(a / 10, b / 10);
    }
  }
}
