/** The pure part of the video database: sanitizing values, deriving subtitle languages and
    formats from file names, and updating a video's row. Timestamps and the JSON text of list
    and dict values are parameters. */
module Database {
  import opened Results
  import opened Text
  import Embedding

  // ---------------------------------------------------------------- sanitizing

  /** The characters a sanitized string never holds. */
  const Unsafe: set<char> := {'\n', '\0'}

  /** `_sanitize_value` on a string: every newline becomes a space, then every null byte is
      removed, as two `str.replace` passes. */
  function SanitizeText(s: string): (r: string)
    ensures Avoids(r, Unsafe)
    ensures |r| <= |s|
  {
    SanitizeOnePass(s);
    ReplaceAll(ReplaceAll(s, "\n", " "), "\0", "")
  }

  /** What one character becomes. */
  function SafeChar(c: char): string {
    if c == '\n' then " " else if c == '\0' then "" else [c]
  }

  /** A one-pass reading of the two replacements, character by character. */
  function SanitizeEach(s: string): (r: string)
    ensures Avoids(r, Unsafe)
    ensures |r| <= |s|
  {
    if |s| == 0 then "" else SafeChar(s[0]) + SanitizeEach(s[1..])
  }

  /** Replacing a one-character pattern looks at one character at a time. */
  lemma ReplaceCharStep(s: string, c: char, rep: string)
    requires |s| > 0
    ensures ReplaceAll(s, [c], rep) == (if s[0] == c then rep else [s[0]]) + ReplaceAll(s[1..], [c], rep)
  {
    assert StartsWith(s, [c]) <==> s[0] == c by {
      assert |s[..1]| == 1 && s[..1][0] == s[0];
    }
  }

  /** The two replacement passes agree with the one-pass reading. */
  lemma {:induction false} SanitizeOnePass(s: string)
    ensures ReplaceAll(ReplaceAll(s, "\n", " "), "\0", "") == SanitizeEach(s)
    decreases |s|
  {
    if |s| > 0 {
      var x := if s[0] == '\n' then ' ' else s[0];
      ReplaceCharStep(s, '\n', " ");
      var spaced := ReplaceAll(s[1..], "\n", " ");
      var t := [x] + spaced;
      assert ReplaceAll(s, "\n", " ") == t;
      ReplaceCharStep(t, '\0', "");
      assert t[0] == x && t[1..] == spaced;
      assert (if x == '\0' then "" else [x]) == SafeChar(s[0]);
      SanitizeOnePass(s[1..]);
    }
  }

  /** Sanitizing works piece by piece. */
  lemma {:induction false} SanitizeConcat(a: string, b: string)
    ensures SanitizeText(a + b) == SanitizeText(a) + SanitizeText(b)
  {
    SanitizeOnePass(a + b);
    SanitizeOnePass(a);
    SanitizeOnePass(b);
    SanitizeEachConcat(a, b);
  }

  lemma {:induction false} SanitizeEachConcat(a: string, b: string)
    ensures SanitizeEach(a + b) == SanitizeEach(a) + SanitizeEach(b)
    decreases |a|
  {
    if |a| == 0 {
      assert a + b == b;
    } else {
      assert (a + b)[0] == a[0] && (a + b)[1..] == a[1..] + b;
      SanitizeEachConcat(a[1..], b);
    }
  }

  /** A string is left alone exactly when it holds no newline and no null byte. */
  lemma SanitizeFixed(s: string)
    ensures SanitizeText(s) == s <==> Avoids(s, Unsafe)
  {
    SanitizeOnePass(s);
    if Avoids(s, Unsafe) {
      SanitizeEachKeeps(s);
    }
  }

  lemma {:induction false} SanitizeEachKeeps(s: string)
    requires Avoids(s, Unsafe)
    ensures SanitizeEach(s) == s
    decreases |s|
  {
    if |s| > 0 {
      SanitizeEachKeeps(s[1..]);
    }
  }

  /** Sanitizing twice is sanitizing once. */
  lemma SanitizeIdempotent(s: string)
    ensures SanitizeText(SanitizeText(s)) == SanitizeText(s)
  {
    SanitizeFixed(SanitizeText(s));
  }

  /** Only null bytes are lost: the length drops by their count. */
  lemma SanitizeLength(s: string)
    ensures |SanitizeText(s)| == |s| - multiset(s)['\0']
  {
    SanitizeOnePass(s);
    SanitizeEachLength(s);
  }

  lemma {:induction false} SanitizeEachLength(s: string)
    ensures |SanitizeEach(s)| == |s| - multiset(s)['\0']
    decreases |s|
  {
    if |s| > 0 {
      SanitizeEachLength(s[1..]);
      assert s == [s[0]] + s[1..];
      assert multiset(s) == multiset([s[0]]) + multiset(s[1..]);
    }
  }

  /** Newlines become spaces and every other character but the null byte stays in place. */
  lemma {:induction false} SanitizeKeepsText(s: string)
    ensures RemoveChars(SanitizeText(s), {' '}) == RemoveChars(s, {' ', '\n', '\0'})
  {
    SanitizeOnePass(s);
    SanitizeEachKeepsText(s);
  }

  lemma {:induction false} SanitizeEachKeepsText(s: string)
    ensures RemoveChars(SanitizeEach(s), {' '}) == RemoveChars(s, {' ', '\n', '\0'})
    decreases |s|
  {
    if |s| > 0 {
      var rest := SanitizeEach(s[1..]);
      SanitizeEachKeepsText(s[1..]);
      assert s == [s[0]] + s[1..];
      RemoveCharsCons(s[0], s[1..], {' ', '\n', '\0'});
      if s[0] == '\n' {
        RemoveCharsCons(' ', rest, {' '});
      } else if s[0] != '\0' {
        assert SanitizeEach(s) == [s[0]] + rest;
        RemoveCharsCons(s[0], rest, {' '});
        assert (s[0] in {' '}) == (s[0] in {' ', '\n', '\0'});
      } else {
        assert SanitizeEach(s) == "" + rest == rest;
      }
    }
  }

  /** A value as handed to the database writer. `Composite` stands for a list or a dict and
      carries the text `json.dumps` gives it; `Scalar` is anything else, by its text. */
  datatype Value = Str(s: string) | Composite(json: string) | Scalar(repr: string)

  /** `_sanitize_value`. */
  function SanitizeValue(v: Value): (r: Value)
    ensures v.Str? ==> r.Str? && Avoids(r.s, Unsafe)
    ensures v.Composite? ==> r == Str(v.json)
    ensures v.Scalar? ==> r == v
  {
    match v
    case Str(s) => Str(SanitizeText(s))
    case Composite(json) => Str(json)
    case Scalar(_) => v
  }

  /** A string value is sanitized once and for all. */
  lemma SanitizeValueStr(v: Value)
    requires v.Str?
    ensures SanitizeValue(SanitizeValue(v)) == SanitizeValue(v)
    ensures SanitizeValue(v) == v <==> Avoids(v.s, Unsafe)
  {
    SanitizeIdempotent(v.s);
    SanitizeFixed(v.s);
  }

  // ---------------------------------------------------------------- languages and formats

  /** The (language, format) pair recorded for one subtitle file: a configured language
      before the extension is both; otherwise the format is the two fields before the
      extension and the language the first of them. */
  function SubtitleTag(name: string, languages: seq<string>): (r: Result<(string, string), Embedding.NameError>)
    ensures var fs := Embedding.Fields(name);
      r.Err? <==> |fs| < 2 || (|fs| == 2 && fs[0] !in languages)
    ensures r.Err? ==> r.error == Embedding.TooFewFields(name)
  {
    var fs := Embedding.Fields(name);
    if |fs| < 2 then Err(Embedding.TooFewFields(name))
    else if fs[|fs| - 2] in languages then Ok((fs[|fs| - 2], fs[|fs| - 2]))
    else if |fs| < 3 then Err(Embedding.TooFewFields(name))
    else Ok((fs[|fs| - 3], fs[|fs| - 3] + "." + fs[|fs| - 2]))
  }

  /** The recorded format is the language tag the embedding step gives the file, and the
      recorded language is that tag up to its first dot. */
  lemma TagAgreesWithEmbedding(name: string, languages: seq<string>)
    ensures SubtitleTag(name, languages).Ok? <==> Embedding.SubtitleLanguage(name, languages).Ok?
    ensures SubtitleTag(name, languages).Ok? ==>
      var (lang, format) := SubtitleTag(name, languages).value;
      && format == Embedding.SubtitleLanguage(name, languages).value
      && Avoids(lang, Embedding.Dot)
      && (format == lang || exists tag :: Avoids(tag, Embedding.Dot) && format == lang + "." + tag)
  {
    var fs := Embedding.Fields(name);
    if SubtitleTag(name, languages).Ok? {
      assert fs[|fs| - 2] in fs;
      if fs[|fs| - 2] !in languages {
        assert fs[|fs| - 3] in fs;
      }
    }
  }

  /** The derived languages and formats of a list of files, one entry each and in order; the
      first name with too few fields stops the derivation. */
  function SubtitleTags(names: seq<string>, languages: seq<string>): (r: Result<(seq<string>, seq<string>), Embedding.NameError>)
    ensures r.Ok? <==> forall i :: 0 <= i < |names| ==> SubtitleTag(names[i], languages).Ok?
    ensures r.Ok? ==> |r.value.0| == |names| && |r.value.1| == |names|
    ensures r.Ok? ==> forall i :: 0 <= i < |names| ==> (r.value.0[i], r.value.1[i]) == SubtitleTag(names[i], languages).value
  {
    if |names| == 0 then Ok(([], []))
    else
      var rest := SubtitleTags(names[1..], languages);
      TagsCons(names, languages, rest);
      match SubtitleTag(names[0], languages)
      case Err(e) => Err(e)
      case Ok((l, f)) =>
        match rest
        case Err(e) => Err(e)
        case Ok((ls, fs)) => Ok(([l] + ls, [f] + fs))
  }

  /** One more name in front: the derivation succeeds when both its own and the rest do,
      and its entries lead. */
  lemma TagsCons(names: seq<string>, languages: seq<string>, rest: Result<(seq<string>, seq<string>), Embedding.NameError>)
    requires |names| > 0
    requires rest.Ok? <==> forall i :: 0 <= i < |names| - 1 ==> SubtitleTag(names[1..][i], languages).Ok?
    requires rest.Ok? ==> |rest.value.0| == |names| - 1 && |rest.value.1| == |names| - 1
    requires rest.Ok? ==> forall i :: 0 <= i < |names| - 1 ==>
      (rest.value.0[i], rest.value.1[i]) == SubtitleTag(names[1..][i], languages).value
    ensures var h := SubtitleTag(names[0], languages);
      (h.Ok? && rest.Ok?) <==> forall i :: 0 <= i < |names| ==> SubtitleTag(names[i], languages).Ok?
    ensures var h := SubtitleTag(names[0], languages);
      h.Ok? && rest.Ok? ==> forall i :: 0 <= i < |names| ==>
        (([h.value.0] + rest.value.0)[i], ([h.value.1] + rest.value.1)[i]) == SubtitleTag(names[i], languages).value
  {
    assert forall i :: 1 <= i < |names| ==> names[1..][i - 1] == names[i];
  }

  /** The distinct entries of `xs`, in order of first occurrence: the model's choice for the
      order of `list(set(xs))`, which Python leaves unspecified. */
  function Distinct(xs: seq<string>): (r: seq<string>)
    ensures forall x :: x in r <==> x in xs
    ensures forall i, j :: 0 <= i < j < |r| ==> r[i] != r[j]
    ensures |r| <= |xs|
  {
    DistinctBelow(xs, |xs|)
  }

  function DistinctBelow(xs: seq<string>, n: nat): (r: seq<string>)
    requires n <= |xs|
    ensures forall x :: x in r <==> x in xs[..n]
    ensures forall i, j :: 0 <= i < j < |r| ==> r[i] != r[j]
    ensures |r| <= n
  {
    if n == 0 then []
    else
      var r := DistinctBelow(xs, n - 1);
      assert xs[..n] == xs[..n - 1] + [xs[n - 1]];
      if xs[n - 1] in r then r else r + [xs[n - 1]]
  }

  /** The subtitle columns of a row: the languages and the formats lists. */
  datatype SubtitleColumns = SubtitleColumns(languages: seq<string>, formats: seq<string>)

  /** The columns of a new row (`add_to_database`): each language once, every format in
      file order. */
  function NewColumns(names: seq<string>, languages: seq<string>): (r: Result<SubtitleColumns, Embedding.NameError>)
    ensures r.Ok? <==> SubtitleTags(names, languages).Ok?
    ensures r.Ok? ==> forall l :: l in r.value.languages <==> l in SubtitleTags(names, languages).value.0
    ensures r.Ok? ==> forall i, j :: 0 <= i < j < |r.value.languages| ==> r.value.languages[i] != r.value.languages[j]
    ensures r.Ok? ==> r.value.formats == SubtitleTags(names, languages).value.1
  {
    match SubtitleTags(names, languages)
    case Err(e) => Err(e)
    case Ok((ls, fs)) => Ok(SubtitleColumns(Distinct(ls), fs))
  }

  /** `update_database` on the subtitle columns, as written: the merged language list is
      deduplicated into a misspelled variable, and the merged, deduplicated formats are then
      written into the languages column; the formats column is never written. */
  function UpdateColumnsAsWritten(row: SubtitleColumns, newLanguages: seq<string>, newFormats: seq<string>): (r: SubtitleColumns)
    ensures r.formats == row.formats
    ensures forall x :: x in r.languages <==> x in row.formats || x in newFormats
  {
    SubtitleColumns(Distinct(row.formats + newFormats), row.formats)
  }

  /** The evidently intended update: each column gains the new entries, deduplicated. */
  function UpdateColumns(row: SubtitleColumns, newLanguages: seq<string>, newFormats: seq<string>): (r: SubtitleColumns)
    ensures forall x :: x in r.languages <==> x in row.languages || x in newLanguages
    ensures forall x :: x in r.formats <==> x in row.formats || x in newFormats
    ensures forall i, j :: 0 <= i < j < |r.languages| ==> r.languages[i] != r.languages[j]
    ensures forall i, j :: 0 <= i < j < |r.formats| ==> r.formats[i] != r.formats[j]
  {
    SubtitleColumns(Distinct(row.languages + newLanguages), Distinct(row.formats + newFormats))
  }

  /** Adding `v.en.dir_iter.vtt` to a row holding `en` alone: as written, the languages column
      gains the format `en.dir_iter` and the formats column does not; the intended update
      records it as a format only. */
  lemma ColumnsSwapped()
    ensures var row := SubtitleColumns(["en"], ["en"]);
      && "en.dir_iter" in UpdateColumnsAsWritten(row, ["en"], ["en.dir_iter"]).languages
      && "en.dir_iter" !in UpdateColumnsAsWritten(row, ["en"], ["en.dir_iter"]).formats
      && "en.dir_iter" !in UpdateColumns(row, ["en"], ["en.dir_iter"]).languages
      && "en.dir_iter" in UpdateColumns(row, ["en"], ["en.dir_iter"]).formats
  {
    assert "en.dir_iter" in ["en"] + ["en.dir_iter"];
    assert "en.dir_iter" !in ["en"] + ["en"];
  }

  // ---------------------------------------------------------------- title and description history

  /** A title or description history: timestamp to value, as the row's JSON dict holds it. */
  type History = map<string, string>

  /** The history update as written: the new value is looked up as given, but stored
      sanitized; a stamp already present is overwritten. */
  function RecordAsWritten(h: History, stamp: string, value: string): (r: History)
    ensures value in h.Values ==> r == h
    ensures value !in h.Values ==> stamp in r && r[stamp] == SanitizeText(value)
    ensures forall k :: k in h && k != stamp ==> k in r && r[k] == h[k]
    ensures r.Keys <= h.Keys + {stamp}
  {
    if value in h.Values then h else h[stamp := SanitizeText(value)]
  }

  /** The evidently intended update: the value is looked up in the form it is stored in. */
  function Record(h: History, stamp: string, value: string): (r: History)
    ensures SanitizeText(value) in r.Values
    ensures SanitizeText(value) in h.Values ==> r == h
    ensures forall k :: k in h && k != stamp ==> k in r && r[k] == h[k]
    ensures r.Keys <= h.Keys + {stamp}
  {
    var v := SanitizeText(value);
    if v in h.Values then h
    else
      var r := h[stamp := v];
      assert r[stamp] == v;
      r
  }

  /** Recording the same value again, under any later stamp, changes nothing. */
  lemma RecordIdempotent(h: History, stamp1: string, stamp2: string, value: string)
    ensures Record(Record(h, stamp1, value), stamp2, value) == Record(h, stamp1, value)
  {
  }

  /** For values already in stored form the two updates agree. */
  lemma RecordAgrees(h: History, stamp: string, value: string)
    requires Avoids(value, Unsafe)
    ensures RecordAsWritten(h, stamp, value) == Record(h, stamp, value)
  {
    SanitizeFixed(value);
  }

  /** As written, a value with a newline is stored once more on every update. */
  lemma RecordRepeats()
    ensures var h := RecordAsWritten(RecordAsWritten(map[], "t1", "a\nb"), "t2", "a\nb");
      h == map["t1" := "a b", "t2" := "a b"]
    ensures Record(Record(map[], "t1", "a\nb"), "t2", "a\nb") == map["t1" := "a b"]
  {
    assert "a\nb" == "a" + ['\n'] + "b";
    SanitizeConcat("a" + ['\n'], "b");
    SanitizeConcat("a", ['\n']);
    SanitizeFixed("a");
    SanitizeFixed("b");
    SanitizeEachOne('\n');
    assert SanitizeText("a\nb") == "a b";
    var h1 := RecordAsWritten(map[], "t1", "a\nb");
    assert h1 == map["t1" := "a b"];
    assert "a\nb" !in h1.Values by {
      assert h1.Values == {"a b"};
    }
  }

  lemma SanitizeEachOne(c: char)
    ensures SanitizeText([c]) == SafeChar(c)
  {
    SanitizeOnePass([c]);
    assert [c][1..] == "";
  }

  // ---------------------------------------------------------------- video sources

  /** The source-list update as written: `list += str` extends the list by the characters of
      the source, one single-character entry each. */
  function AddSourceAsWritten(sources: seq<string>, source: string): (r: seq<string>)
    ensures source in sources ==> r == sources
    ensures source !in sources ==> |r| == |sources| + |source|
    ensures source !in sources ==> forall i :: 0 <= i < |source| ==> r[|sources| + i] == [source[i]]
    ensures |sources| <= |r| && r[..|sources|] == sources
  {
    if source in sources then sources
    else sources + seq(|source|, i requires 0 <= i < |source| => [source[i]])
  }

  /** The evidently intended update: the source is appended as one entry if absent. */
  function AddSource(sources: seq<string>, source: string): (r: seq<string>)
    ensures source in r
    ensures |sources| <= |r| <= |sources| + 1 && r[..|sources|] == sources
    ensures source in sources ==> r == sources
  {
    if source in sources then sources else sources + [source]
  }

  /** Adding a source twice is adding it once. */
  lemma AddSourceIdempotent(sources: seq<string>, source: string)
    ensures AddSource(AddSource(sources, source), source) == AddSource(sources, source)
  {
  }

  /** As written, a playlist source `pl` never enters the list: `p` and `l` do. */
  lemma SourceSplit()
    ensures AddSourceAsWritten(["direct"], "pl") == ["direct", "p", "l"]
    ensures "pl" !in AddSourceAsWritten(["direct"], "pl")
    ensures AddSource(["direct"], "pl") == ["direct", "pl"]
  {
    assert "pl" != "direct";
  }

  // ---------------------------------------------------------------- updating a row

  /** The JSON-held columns of one video's row. */
  datatype Row = Row(id: string, titles: History, descriptions: History, sources: seq<string>, subtitles: SubtitleColumns)

  /** What an update brings: the current title and description, the source, and the
      subtitle files if any. */
  datatype Update = Update(title: string, description: string, source: string, subtitleFiles: Option<seq<string>>)

  datatype UpdateError = BadName(e: Embedding.NameError) | RowNotFound(id: string)

  /** One row brought up to date as `update_database` writes it: each history is checked
      against the raw value but gains the sanitized one, a new source enters the list one
      character at a time, and the merged formats are written into the languages column. */
  function UpdateRowAsWritten(row: Row, u: Update, derived: Option<(seq<string>, seq<string>)>, stamp: string): (r: Row)
    ensures r.id == row.id
    ensures u.title in row.titles.Values ==> r.titles == row.titles
    ensures u.title !in row.titles.Values ==> stamp in r.titles && r.titles[stamp] == SanitizeText(u.title)
    ensures u.description in row.descriptions.Values ==> r.descriptions == row.descriptions
    ensures u.description !in row.descriptions.Values ==>
      stamp in r.descriptions && r.descriptions[stamp] == SanitizeText(u.description)
    ensures forall t :: t in row.titles && t != stamp ==> t in r.titles && r.titles[t] == row.titles[t]
    ensures forall t :: t in row.descriptions && t != stamp ==> t in r.descriptions && r.descriptions[t] == row.descriptions[t]
    ensures r.titles.Keys <= row.titles.Keys + {stamp} && r.descriptions.Keys <= row.descriptions.Keys + {stamp}
    ensures u.source in row.sources ==> r.sources == row.sources
    ensures u.source !in row.sources ==>
      && |r.sources| == |row.sources| + |u.source|
      && r.sources[..|row.sources|] == row.sources
      && forall i :: 0 <= i < |u.source| ==> r.sources[|row.sources| + i] == [u.source[i]]
    ensures derived.None? ==> r.subtitles == row.subtitles
    ensures derived.Some? ==> r.subtitles.formats == row.subtitles.formats
    ensures derived.Some? ==> forall x :: x in r.subtitles.languages <==> x in row.subtitles.formats || x in derived.value.1
  {
    Row(row.id,
        RecordAsWritten(row.titles, stamp, u.title),
        RecordAsWritten(row.descriptions, stamp, u.description),
        AddSourceAsWritten(row.sources, u.source),
        match derived
        case None => row.subtitles
        case Some((ls, fs)) => UpdateColumnsAsWritten(row.subtitles, ls, fs))
  }

  /** One row brought up to date with the evidently intended history, source and column
      updates. */
  function UpdateRow(row: Row, u: Update, derived: Option<(seq<string>, seq<string>)>, stamp: string): (r: Row)
    ensures r.id == row.id
    ensures SanitizeText(u.title) in r.titles.Values && SanitizeText(u.description) in r.descriptions.Values
    ensures SanitizeText(u.title) in row.titles.Values ==> r.titles == row.titles
    ensures SanitizeText(u.description) in row.descriptions.Values ==> r.descriptions == row.descriptions
    ensures forall t :: t in row.titles && t != stamp ==> t in r.titles && r.titles[t] == row.titles[t]
    ensures forall t :: t in row.descriptions && t != stamp ==> t in r.descriptions && r.descriptions[t] == row.descriptions[t]
    ensures r.titles.Keys <= row.titles.Keys + {stamp} && r.descriptions.Keys <= row.descriptions.Keys + {stamp}
    ensures u.source in r.sources && |row.sources| <= |r.sources| <= |row.sources| + 1 && r.sources[..|row.sources|] == row.sources
    ensures u.source in row.sources ==> r.sources == row.sources
    ensures derived.None? ==> r.subtitles == row.subtitles
    ensures derived.Some? ==> forall x :: x in r.subtitles.languages <==> x in row.subtitles.languages || x in derived.value.0
    ensures derived.Some? ==> forall x :: x in r.subtitles.formats <==> x in row.subtitles.formats || x in derived.value.1
  {
    Row(row.id,
        Record(row.titles, stamp, u.title),
        Record(row.descriptions, stamp, u.description),
        AddSource(row.sources, u.source),
        match derived
        case None => row.subtitles
        case Some((ls, fs)) => UpdateColumns(row.subtitles, ls, fs))
  }

  /** The first row with the given id. */
  function FindRow(rows: seq<Row>, id: string): (k: int)
    ensures -1 <= k < |rows|
    ensures k == -1 <==> forall i :: 0 <= i < |rows| ==> rows[i].id != id
    ensures k >= 0 ==> rows[k].id == id && forall i :: 0 <= i < k ==> rows[i].id != id
  {
    if |rows| == 0 then -1
    else if rows[0].id == id then 0
    else
      var k := FindRow(rows[1..], id);
      if k == -1 then -1 else k + 1
  }

  /** `update_database` on the rows in memory: the subtitle names are derived first, then the
      first row with the video's id is updated as the source writes it; no such row is an
      error. */
  function UpdateTable(rows: seq<Row>, id: string, u: Update, languages: seq<string>, stamp: string): (r: Result<seq<Row>, UpdateError>)
    ensures r.Err? <==>
      (u.subtitleFiles.Some? && SubtitleTags(u.subtitleFiles.value, languages).Err?)
      || FindRow(rows, id) == -1
    ensures r.Ok? ==> |r.value| == |rows|
    ensures r.Ok? ==> forall i :: 0 <= i < |rows| && i != FindRow(rows, id) ==> r.value[i] == rows[i]
    ensures r.Ok? ==> FindRow(rows, id) >= 0 && (u.subtitleFiles.Some? ==> SubtitleTags(u.subtitleFiles.value, languages).Ok?)
    ensures r.Ok? ==> var k := FindRow(rows, id);
      r.value[k] == UpdateRowAsWritten(rows[k], u,
        if u.subtitleFiles.None? then None else Some(SubtitleTags(u.subtitleFiles.value, languages).value), stamp)
    ensures r.Ok? ==> var k := FindRow(rows, id);
      && r.value[k].id == id
      && (u.title in rows[k].titles.Values ==> r.value[k].titles == rows[k].titles)
      && (u.title !in rows[k].titles.Values ==> stamp in r.value[k].titles && r.value[k].titles[stamp] == SanitizeText(u.title))
      && (u.source in rows[k].sources ==> r.value[k].sources == rows[k].sources)
      && (u.source !in rows[k].sources ==>
        && |r.value[k].sources| == |rows[k].sources| + |u.source|
        && forall i :: 0 <= i < |u.source| ==> r.value[k].sources[|rows[k].sources| + i] == [u.source[i]])
      && r.value[k].subtitles.formats == rows[k].subtitles.formats
      && (u.subtitleFiles.None? ==> r.value[k].subtitles == rows[k].subtitles)
  {
    var derived :=
      match u.subtitleFiles
      case None => Ok(None)
      case Some(names) =>
        match SubtitleTags(names, languages)
        case Err(e) => Err(BadName(e))
        case Ok(tags) => Ok(Some(tags));
    if derived.Err? then Err(derived.error)
    else
      var k := FindRow(rows, id);
      if k == -1 then Err(RowNotFound(id))
      else Ok(rows[k := UpdateRowAsWritten(rows[k], u, derived.value, stamp)])
  }

  /** Updating with the same data twice, at any two moments, leaves the histories and the
      sources as after the first update. */
  lemma UpdateRowRepeat(row: Row, u: Update, derived: Option<(seq<string>, seq<string>)>, stamp1: string, stamp2: string)
    ensures var once := UpdateRow(row, u, derived, stamp1);
      var twice := UpdateRow(once, u, derived, stamp2);
      twice.titles == once.titles && twice.descriptions == once.descriptions && twice.sources == once.sources
  {
    RecordIdempotent(row.titles, stamp1, stamp2, u.title);
    RecordIdempotent(row.descriptions, stamp1, stamp2, u.description);
    AddSourceIdempotent(row.sources, u.source);
  }

  /** For an update whose title and description are already in stored form, whose source is
      one character long or already listed, and which brings no subtitle files, the row is
      updated as intended. */
  lemma UpdateRowAgrees(row: Row, u: Update, stamp: string)
    requires Avoids(u.title, Unsafe) && Avoids(u.description, Unsafe)
    requires |u.source| == 1 || u.source in row.sources
    ensures UpdateRowAsWritten(row, u, None, stamp) == UpdateRow(row, u, None, stamp)
  {
    RecordAgrees(row.titles, stamp, u.title);
    RecordAgrees(row.descriptions, stamp, u.description);
    if u.source !in row.sources {
      assert [u.source[0]] == u.source;
    }
  }
}
