/** Naming, ordering and tagging subtitle files before they are embedded in a video. The
    configured languages and priorities are parameters. */
module Embedding {
  import opened Results
  import opened Text

  /** Python's `IndexError` for a file name with too few `.`-separated fields. */
  datatype NameError = TooFewFields(file: string)

  const Dot: set<char> := {'.'}

  /** `str.split(name, '.')`. */
  function Fields(name: string): (fs: seq<string>)
    ensures |fs| >= 1
  {
    SplitAny(name, Dot)
  }

  /** `_get_subtitle_language`: the next-to-last field if it is a configured language,
      otherwise the two fields before the extension joined by a dot. */
  function SubtitleLanguage(name: string, languages: seq<string>): (r: Result<string, NameError>)
    ensures var fs := Fields(name);
      r.Err? <==> |fs| < 2 || (|fs| == 2 && fs[0] !in languages)
    ensures r.Err? ==> r.error == TooFewFields(name)
    ensures var fs := Fields(name);
      r.Ok? ==> (fs[|fs| - 2] in languages ==> r.value == fs[|fs| - 2])
    ensures var fs := Fields(name);
      r.Ok? ==> (fs[|fs| - 2] !in languages ==> r.value == fs[|fs| - 3] + "." + fs[|fs| - 2])
  {
    var fs := Fields(name);
    if |fs| < 2 then Err(TooFewFields(name))
    else if fs[|fs| - 2] in languages then Ok(fs[|fs| - 2])
    else if |fs| < 3 then Err(TooFewFields(name))
    else Ok(fs[|fs| - 3] + "." + fs[|fs| - 2])
  }

  /** The fields of `a.b`, for a `b` without dots. */
  lemma FieldsSnoc(a: string, b: string)
    requires Avoids(b, Dot)
    ensures Fields(a + "." + b) == Fields(a) + [b]
  {
    assert a + "." + b == a + ['.'] + b;
    SplitAnyAt(a, '.', b, Dot);
    SplitAnyNone(b, Dot);
  }

  /** `<stem>.<lang>.<ext>` names the configured language `<lang>`. */
  lemma LanguageOfName(stem: string, lang: string, ext: string, languages: seq<string>)
    requires Avoids(lang, Dot) && Avoids(ext, Dot) && lang in languages
    ensures SubtitleLanguage(stem + "." + lang + "." + ext, languages) == Ok(lang)
  {
    FieldsSnoc(stem, lang);
    FieldsSnoc(stem + "." + lang, ext);
  }

  /** `<stem>.<lang>.<tag>.<ext>` with a tag that is not itself a configured language names
      `<lang>.<tag>`. */
  lemma LanguageOfTaggedName(stem: string, lang: string, tag: string, ext: string, languages: seq<string>)
    requires Avoids(lang, Dot) && Avoids(tag, Dot) && Avoids(ext, Dot) && tag !in languages
    ensures SubtitleLanguage(stem + "." + lang + "." + tag + "." + ext, languages) == Ok(lang + "." + tag)
  {
    FieldsSnoc(stem, lang);
    FieldsSnoc(stem + "." + lang, tag);
    FieldsSnoc(stem + "." + lang + "." + tag, ext);
  }

  /** The two examples of the function's documentation, with `en` configured. */
  lemma DocExamples()
    ensures SubtitleLanguage("name.en.vtt", ["en"]) == Ok("en")
    ensures SubtitleLanguage("name.en.dir_iter.vtt", ["en"]) == Ok("en.dir_iter")
  {
    DocPlainExample();
    DocTaggedExample();
  }

  lemma DocPlainExample()
    ensures SubtitleLanguage("name.en.vtt", ["en"]) == Ok("en")
  {
    var plain := "name" + "." + "en" + "." + "vtt";
    LanguageOfName("name", "en", "vtt", ["en"]);
    assert plain == "name.en.vtt";
  }

  lemma DocTaggedExample()
    ensures SubtitleLanguage("name.en.dir_iter.vtt", ["en"]) == Ok("en.dir_iter")
  {
    var tagged := "name" + "." + "en" + "." + "dir_iter" + "." + "vtt";
    assert "dir_iter" !in ["en"];
    LanguageOfTaggedName("name", "en", "dir_iter", "vtt", ["en"]);
    assert tagged == "name.en.dir_iter.vtt";
    assert "en" + "." + "dir_iter" == "en.dir_iter";
  }

  // ---------------------------------------------------------------- ordering

  /** The derived language of every file; the first name that fails stops the whole list. */
  function LanguagesOf(names: seq<string>, languages: seq<string>): (r: Result<seq<string>, NameError>)
    ensures r.Ok? <==> forall i :: 0 <= i < |names| ==> SubtitleLanguage(names[i], languages).Ok?
    ensures r.Ok? ==> |r.value| == |names|
    ensures r.Ok? ==> forall i :: 0 <= i < |names| ==> r.value[i] == SubtitleLanguage(names[i], languages).value
  {
    if |names| == 0 then Ok([])
    else
      match SubtitleLanguage(names[0], languages)
      case Err(e) => Err(e)
      case Ok(l) =>
        match LanguagesOf(names[1..], languages)
        case Err(e) =>
          assert forall i :: 1 <= i < |names| ==> names[1..][i - 1] == names[i];
          Err(e)
        case Ok(ls) =>
          var r := [l] + ls;
          assert forall i :: 1 <= i < |names| ==> r[i] == ls[i - 1] && names[1..][i - 1] == names[i];
          Ok(r)
  }

  /** The language tag a (language, priority) slot looks for: `default` means the bare code. */
  function SlotKey(lang: string, prio: string): string {
    if prio == "default" then lang else lang + "." + prio
  }

  /** The slots of one language, in priority order. */
  function LanguageSlots(lang: string, priorities: seq<string>): (ks: seq<string>)
    ensures |ks| == |priorities| && forall j :: 0 <= j < |ks| ==> ks[j] == SlotKey(lang, priorities[j])
  {
    seq(|priorities|, j requires 0 <= j < |priorities| => SlotKey(lang, priorities[j]))
  }

  /** All slots, language by language. */
  function Slots(languages: seq<string>, priorities: seq<string>): seq<string> {
    if |languages| == 0 then []
    else LanguageSlots(languages[0], priorities) + Slots(languages[1..], priorities)
  }

  /** `i * n`, counted out as `i` rows of `n`. */
  function Offset(i: nat, n: nat): nat {
    if i == 0 then 0 else n + Offset(i - 1, n)
  }

  lemma {:induction false} OffsetIsProduct(i: nat, n: nat)
    ensures Offset(i, n) == i * n
  {
    if i > 0 {
      OffsetIsProduct(i - 1, n);
      assert i * n == n + (i - 1) * n;
    }
  }

  /** One slot for every (language, priority) pair. */
  lemma SlotsLength(languages: seq<string>, priorities: seq<string>)
    ensures |Slots(languages, priorities)| == |languages| * |priorities|
  {
    SlotsOffsetLength(languages, priorities);
    OffsetIsProduct(|languages|, |priorities|);
  }

  lemma {:induction false} SlotsOffsetLength(languages: seq<string>, priorities: seq<string>)
    ensures |Slots(languages, priorities)| == Offset(|languages|, |priorities|)
    decreases |languages|
  {
    if |languages| > 0 {
      SlotsOffsetLength(languages[1..], priorities);
    }
  }

  /** Slot `(i, j)` sits at position `i * |priorities| + j`: languages first, priorities within. */
  lemma SlotsLanguageMajor(languages: seq<string>, priorities: seq<string>, i: nat, j: nat)
    requires i < |languages| && j < |priorities|
    ensures i * |priorities| + j < |Slots(languages, priorities)|
    ensures Slots(languages, priorities)[i * |priorities| + j] == SlotKey(languages[i], priorities[j])
  {
    SlotAt(languages, priorities, i, j);
    OffsetIsProduct(i, |priorities|);
  }

  lemma {:induction false} SlotAt(languages: seq<string>, priorities: seq<string>, i: nat, j: nat)
    requires i < |languages| && j < |priorities|
    ensures Offset(i, |priorities|) + j < |Slots(languages, priorities)|
    ensures Slots(languages, priorities)[Offset(i, |priorities|) + j] == SlotKey(languages[i], priorities[j])
    decreases i
  {
    var here := LanguageSlots(languages[0], priorities);
    var rest := Slots(languages[1..], priorities);
    assert Slots(languages, priorities) == here + rest;
    if i > 0 {
      SlotAt(languages[1..], priorities, i - 1, j);
      assert languages[1..][i - 1] == languages[i];
    }
  }

  /** Python's `list.index`, with -1 for the `ValueError`. */
  function IndexOf(xs: seq<string>, x: string): (k: int)
    ensures -1 <= k < |xs|
    ensures k == -1 <==> x !in xs
    ensures k >= 0 ==> xs[k] == x && forall j :: 0 <= j < k ==> xs[j] != x
  {
    if |xs| == 0 then -1
    else if xs[0] == x then 0
    else
      var k := IndexOf(xs[1..], x);
      if k == -1 then -1 else k + 1
  }

  /** For every slot in turn, the first file whose language fills it, if any. */
  function Picks(slots: seq<string>, langs: seq<string>, names: seq<string>): (r: seq<string>)
    requires |langs| == |names|
    ensures |r| <= |slots|
    ensures |r| == FilledBefore(slots, langs, |slots|)
    ensures forall x :: x in r ==> exists i :: 0 <= i < |names| && names[i] == x && langs[i] in slots
  {
    if |slots| == 0 then []
    else
      var k := IndexOf(langs, slots[0]);
      var rest := Picks(slots[1..], langs, names);
      assert forall x :: x in rest ==> exists i :: 0 <= i < |names| && names[i] == x && langs[i] in slots;
      (if k >= 0 then [names[k]] else []) + rest
  }

  /** How many of the first `q` slots some file fills: the output position of slot `q`'s file. */
  function FilledBefore(slots: seq<string>, langs: seq<string>, q: nat): nat
    requires q <= |slots|
  {
    if q == 0 then 0 else (if slots[0] in langs then 1 else 0) + FilledBefore(slots[1..], langs, q - 1)
  }

  /** A slot some file fills contributes that slot's first file, behind the files of the
      filled slots before it. */
  lemma {:induction false} PicksAt(slots: seq<string>, langs: seq<string>, names: seq<string>, q: nat)
    requires |langs| == |names| && q < |slots| && slots[q] in langs
    ensures FilledBefore(slots, langs, q) < |Picks(slots, langs, names)|
    ensures Picks(slots, langs, names)[FilledBefore(slots, langs, q)] == names[IndexOf(langs, slots[q])]
    decreases q
  {
    var k := IndexOf(langs, slots[0]);
    var head := if k >= 0 then [names[k]] else [];
    var rest := Picks(slots[1..], langs, names);
    assert Picks(slots, langs, names) == head + rest;
    if q > 0 {
      PicksAt(slots[1..], langs, names, q - 1);
    }
  }

  /** Filled slots keep their order in the output. */
  lemma {:induction false} FilledBeforeGrows(slots: seq<string>, langs: seq<string>, q1: nat, q2: nat)
    requires q1 < q2 <= |slots| && slots[q1] in langs
    ensures FilledBefore(slots, langs, q1) < FilledBefore(slots, langs, q2)
    decreases q1
  {
    if q1 > 0 {
      FilledBeforeGrows(slots[1..], langs, q1 - 1, q2 - 1);
    } else {
      assert FilledBefore(slots, langs, q2) >= 1;
    }
  }

  /** The files of two filled slots come out in slot order: by language first, then by
      priority. */
  lemma OrderedBySlot(slots: seq<string>, langs: seq<string>, names: seq<string>, q1: nat, q2: nat)
    requires |langs| == |names| && q1 < q2 < |slots| && slots[q1] in langs && slots[q2] in langs
    ensures var r, p1, p2 := Picks(slots, langs, names), FilledBefore(slots, langs, q1), FilledBefore(slots, langs, q2);
      p1 < p2 < |r| && r[p1] == names[IndexOf(langs, slots[q1])] && r[p2] == names[IndexOf(langs, slots[q2])]
  {
    PicksAt(slots, langs, names, q1);
    PicksAt(slots, langs, names, q2);
    FilledBeforeGrows(slots, langs, q1, q2);
  }

  /** `_order_subtitles`: the files ordered language by language, priority by priority; a
      file no slot looks for is dropped, and each slot takes at most one file. */
  function OrderSubtitles(names: seq<string>, languages: seq<string>, priorities: seq<string>): (r: Result<seq<string>, NameError>)
    ensures r.Ok? <==> forall i :: 0 <= i < |names| ==> SubtitleLanguage(names[i], languages).Ok?
    ensures r.Ok? ==> |r.value| <= |languages| * |priorities|
    ensures r.Ok? ==> forall x :: x in r.value ==> x in names
    ensures r.Ok? ==> LanguagesOf(names, languages).Ok?
    ensures r.Ok? ==> var slots := Slots(languages, priorities);
      |r.value| == FilledBefore(slots, LanguagesOf(names, languages).value, |slots|)
  {
    match LanguagesOf(names, languages)
    case Err(e) => Err(e)
    case Ok(langs) =>
      SlotsLength(languages, priorities);
      Ok(Picks(Slots(languages, priorities), langs, names))
  }

  /** The first file tagged `SlotKey(languages[i], priorities[j])` sits in the output at the
      position of slot `i * |priorities| + j` (`Offset(i, |priorities|) + j`) among the
      filled slots. */
  lemma {:induction false} OrderPlacesSlot(names: seq<string>, languages: seq<string>, priorities: seq<string>, langs: seq<string>, i: nat, j: nat)
    requires LanguagesOf(names, languages) == Ok(langs)
    requires i < |languages| && j < |priorities| && SlotKey(languages[i], priorities[j]) in langs
    ensures |langs| == |names| && OrderSubtitles(names, languages, priorities) == Ok(Picks(Slots(languages, priorities), langs, names))
    ensures var k := IndexOf(langs, SlotKey(languages[i], priorities[j])); 0 <= k < |names|
    ensures var slots, q, k := Slots(languages, priorities), Offset(i, |priorities|) + j, IndexOf(langs, SlotKey(languages[i], priorities[j]));
      && q < |slots|
      && FilledBefore(slots, langs, q) < |Picks(slots, langs, names)|
      && Picks(slots, langs, names)[FilledBefore(slots, langs, q)] == names[k]
  {
    SlotPlaced(langs, names, languages, priorities, i, j);
  }

  lemma {:induction false} SlotPlaced(langs: seq<string>, names: seq<string>, languages: seq<string>, priorities: seq<string>, i: nat, j: nat)
    requires |langs| == |names| && i < |languages| && j < |priorities|
    requires SlotKey(languages[i], priorities[j]) in langs
    ensures var slots, q := Slots(languages, priorities), Offset(i, |priorities|) + j;
      && q < |slots|
      && FilledBefore(slots, langs, q) < |Picks(slots, langs, names)|
      && Picks(slots, langs, names)[FilledBefore(slots, langs, q)] == names[IndexOf(langs, SlotKey(languages[i], priorities[j]))]
  {
    SlotAt(languages, priorities, i, j);
    PicksAt(Slots(languages, priorities), langs, names, Offset(i, |priorities|) + j);
  }

  /** With English before German and the plain track before `dir_iter`, three files come
      out English plain, English `dir_iter`, German. */
  lemma OrderExample()
    ensures OrderSubtitles(["v.de.vtt", "v.en.dir_iter.vtt", "v.en.vtt"], ["en", "de"], ["default", "dir_iter"])
      == Ok(["v.en.vtt", "v.en.dir_iter.vtt", "v.de.vtt"])
  {
    ExampleLanguages();
    ExampleSlots();
    ExamplePicks();
  }

  lemma ExampleLanguages()
    ensures LanguagesOf(["v.de.vtt", "v.en.dir_iter.vtt", "v.en.vtt"], ["en", "de"])
      == Ok(["de", "en.dir_iter", "en"])
  {
    ExampleNames();
    var r := LanguagesOf(["v.de.vtt", "v.en.dir_iter.vtt", "v.en.vtt"], ["en", "de"]);
    assert r.Ok?;
    assert r.value == ["de", "en.dir_iter", "en"];
  }

  lemma ExampleNames()
    ensures SubtitleLanguage("v.de.vtt", ["en", "de"]) == Ok("de")
    ensures SubtitleLanguage("v.en.dir_iter.vtt", ["en", "de"]) == Ok("en.dir_iter")
    ensures SubtitleLanguage("v.en.vtt", ["en", "de"]) == Ok("en")
  {
    ExamplePlainName("de");
    assert "v." + "de" + ".vtt" == "v.de.vtt";
    ExamplePlainName("en");
    assert "v." + "en" + ".vtt" == "v.en.vtt";
    ExampleTaggedName();
  }

  lemma ExampleTaggedName()
    ensures SubtitleLanguage("v.en.dir_iter.vtt", ["en", "de"]) == Ok("en.dir_iter")
  {
    var ls := ["en", "de"];
    var n1 := "v" + "." + "en" + "." + "dir_iter" + "." + "vtt";
    assert "dir_iter" !in ls;
    LanguageOfTaggedName("v", "en", "dir_iter", "vtt", ls);
    assert n1 == "v.en.dir_iter.vtt";
    assert "en" + "." + "dir_iter" == "en.dir_iter";
  }

  lemma ExamplePlainName(lang: string)
    requires lang in ["en", "de"]
    ensures SubtitleLanguage("v." + lang + ".vtt", ["en", "de"]) == Ok(lang)
  {
    LanguageOfName("v", lang, "vtt", ["en", "de"]);
    assert "v." + lang + ".vtt" == "v" + "." + lang + "." + "vtt";
  }

  lemma ExampleSlots()
    ensures Slots(["en", "de"], ["default", "dir_iter"]) == ["en", "en.dir_iter", "de", "de.dir_iter"]
  {
    var ls, ps := ["en", "de"], ["default", "dir_iter"];
    assert "en" + "." + "dir_iter" == "en.dir_iter";
    assert "de" + "." + "dir_iter" == "de.dir_iter";
    assert LanguageSlots("en", ps) == ["en", "en.dir_iter"];
    assert LanguageSlots("de", ps) == ["de", "de.dir_iter"];
    assert ls[1..] == ["de"] && ls[1..][1..] == [];
    assert Slots(ls[1..], ps) == ["de", "de.dir_iter"];
  }

  lemma ExamplePicks()
    ensures Picks(["en", "en.dir_iter", "de", "de.dir_iter"], ["de", "en.dir_iter", "en"],
      ["v.de.vtt", "v.en.dir_iter.vtt", "v.en.vtt"]) == ["v.en.vtt", "v.en.dir_iter.vtt", "v.de.vtt"]
  {
    var slots := ["en", "en.dir_iter", "de", "de.dir_iter"];
    var langs := ["de", "en.dir_iter", "en"];
    var names := ["v.de.vtt", "v.en.dir_iter.vtt", "v.en.vtt"];
    assert IndexOf(langs, "de.dir_iter") == -1;
    assert Picks(slots[3..], langs, names) == [];
    assert IndexOf(langs, "de") == 0;
    assert Picks(slots[2..], langs, names) == [names[0]];
    assert IndexOf(langs, "en.dir_iter") == 1;
    assert Picks(slots[1..], langs, names) == [names[1], names[0]];
    assert IndexOf(langs, "en") == 2;
  }

  // ---------------------------------------------------------------- ffmpeg options

  function MetadataKey(i: nat): string {
    "metadata:s:s:" + NatToString(i)
  }

  function CodecKey(i: nat): string {
    "scodec:s:" + NatToString(i)
  }

  /** Two option keys with the same prefix are equal only for equal stream numbers. */
  lemma KeyInjective(p: string, a: nat, b: nat)
    ensures p + NatToString(a) == p + NatToString(b) ==> a == b
  {
    if p + NatToString(a) == p + NatToString(b) {
      assert NatToString(a) == (p + NatToString(a))[|p|..];
      assert NatToString(b) == (p + NatToString(b))[|p|..];
      NatToStringInjective(a, b);
    }
  }

  /** Stream `n` gets a metadata key no earlier stream has. */
  lemma MetadataKeyFresh(n: nat)
    ensures forall i :: 0 <= i < n ==> MetadataKey(i) != MetadataKey(n)
  {
    forall i | 0 <= i < n ensures MetadataKey(i) != MetadataKey(n) {
      KeyInjective("metadata:s:s:", i, n);
    }
  }

  /** Stream `n` gets a codec key no earlier stream has. */
  lemma CodecKeyFresh(n: nat)
    ensures forall i :: 0 <= i < n ==> CodecKey(i) != CodecKey(n)
  {
    forall i | 0 <= i < n ensures CodecKey(i) != CodecKey(n) {
      KeyInjective("scodec:s:", i, n);
    }
  }

  /** `lang_metadata`: stream `i` is tagged with the language of the `i`-th ordered file. */
  function LanguageTags(langs: seq<string>): (m: map<string, string>)
    ensures |m| == |langs|
    ensures forall i :: 0 <= i < |langs| ==> MetadataKey(i) in m && m[MetadataKey(i)] == "language=" + langs[i]
    ensures forall k :: k in m ==> exists i :: 0 <= i < |langs| && k == MetadataKey(i)
    decreases |langs|
  {
    if |langs| == 0 then map[]
    else
      var n := |langs| - 1;
      var m := LanguageTags(langs[..n]);
      var m' := m[MetadataKey(n) := "language=" + langs[n]];
      assert MetadataKey(n) !in m by {
        MetadataKeyFresh(n);
      }
      assert forall i :: 0 <= i < |langs| ==> MetadataKey(i) in m' && m'[MetadataKey(i)] == "language=" + langs[i] by {
        forall i | 0 <= i < |langs|
          ensures MetadataKey(i) in m' && m'[MetadataKey(i)] == "language=" + langs[i]
        {
          if i < n {
            var key := MetadataKey(i);
            KeyInjective("metadata:s:s:", i, n);
            assert m'[key] == m[key] == "language=" + langs[..n][i];
            assert langs[..n][i] == langs[i];
          } else {
            assert i == n;
          }
        }
      }
      m'
  }

  /** `scodec_dict`: every one of the `n` subtitle streams is encoded as WebVTT. */
  function CodecOptions(n: nat): (m: map<string, string>)
    ensures |m| == n
    ensures forall i :: 0 <= i < n ==> CodecKey(i) in m && m[CodecKey(i)] == "webvtt"
    ensures forall k :: k in m ==> exists i :: 0 <= i < n && k == CodecKey(i)
  {
    if n == 0 then map[]
    else
      var m := CodecOptions(n - 1);
      CodecKeyFresh(n - 1);
      m[CodecKey(n - 1) := "webvtt"]
  }

  /** The subtitle streams handed to ffmpeg: the ordered files, their language tags and
      their codecs. */
  datatype Streams = Streams(files: seq<string>, tags: map<string, string>, codecs: map<string, string>)

  /** The options for embedding `names`, or the error that ordering them raises: stream `i`
      is the `i`-th ordered file, tagged with that file's language. */
  function StreamOptions(names: seq<string>, languages: seq<string>, priorities: seq<string>): (r: Result<Streams, NameError>)
    ensures r.Ok? <==> forall i :: 0 <= i < |names| ==> SubtitleLanguage(names[i], languages).Ok?
    ensures r.Ok? ==> |r.value.tags| == |r.value.files| && |r.value.codecs| == |r.value.files|
    ensures r.Ok? ==> forall i :: 0 <= i < |r.value.files| ==>
      && r.value.files[i] in names
      && SubtitleLanguage(r.value.files[i], languages).Ok?
      && MetadataKey(i) in r.value.tags
      && r.value.tags[MetadataKey(i)] == "language=" + SubtitleLanguage(r.value.files[i], languages).value
    ensures r.Ok? ==> r.value.files == OrderSubtitles(names, languages, priorities).value
    ensures r.Ok? ==> forall i :: 0 <= i < |r.value.files| ==> CodecKey(i) in r.value.codecs && r.value.codecs[CodecKey(i)] == "webvtt"
  {
    match OrderSubtitles(names, languages, priorities)
    case Err(e) => Err(e)
    case Ok(ordered) =>
      OrderedTags(ordered, names, languages);
      var tags := LanguageTags(LanguagesOf(ordered, languages).value);
      Ok(Streams(ordered, tags, CodecOptions(|ordered|)))
  }

  /** Files drawn from a list whose every name has a language get the tags of those
      languages, stream by stream. */
  lemma OrderedTags(ordered: seq<string>, names: seq<string>, languages: seq<string>)
    requires forall x :: x in ordered ==> x in names
    requires forall i :: 0 <= i < |names| ==> SubtitleLanguage(names[i], languages).Ok?
    ensures LanguagesOf(ordered, languages).Ok?
    ensures var tags := LanguageTags(LanguagesOf(ordered, languages).value);
      |tags| == |ordered| &&
      forall i :: 0 <= i < |ordered| ==>
        && SubtitleLanguage(ordered[i], languages).Ok?
        && MetadataKey(i) in tags
        && tags[MetadataKey(i)] == "language=" + SubtitleLanguage(ordered[i], languages).value
  {
    forall i | 0 <= i < |ordered| ensures SubtitleLanguage(ordered[i], languages).Ok? {
      assert ordered[i] in names;
    }
  }

  // ---------------------------------------------------------------- temporary output name

  /** Where Python's `s[:-4]` ends and `s[-4:]` starts. */
  function ExtensionAt(s: string): (k: nat)
    ensures k <= |s|
  {
    if |s| >= 4 then |s| - 4 else 0
  }

  /** The output path of `add_subtitle_streams`: with no output, or the input itself as
      output, `.temp` goes in front of the four-character extension. */
  function OutputPath(video: string, output: Option<string>): (r: string)
    ensures output.Some? && output.value != video ==> r == output.value
    ensures output.None? || output.value == video ==>
      var k := ExtensionAt(video);
      |r| == |video| + 5 && r[k..k + 5] == ".temp" && r[..k] + r[k + 5..] == video
  {
    if output.Some? && output.value != video then output.value
    else
      var k := ExtensionAt(video);
      var r := video[..k] + ".temp" + video[k..];
      assert r[..k] == video[..k] && r[k + 5..] == video[k..];
      r
  }

  /** ffmpeg never writes over the video it reads: the output path always differs from it. */
  lemma OutputPathDiffers(video: string, output: Option<string>)
    ensures OutputPath(video, output) != video
  {
    if output.None? || output.value == video {
      assert |OutputPath(video, output)| == |video| + 5;
    }
  }
}
