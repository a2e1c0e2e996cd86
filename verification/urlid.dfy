/** The video id of a YouTube address (`_get_id_from_url`). */
module UrlId {
  import opened Results
  import opened Text

  const ShortPrefix: string := "https://youtu.be/"
  const WatchPrefix: string := "https://www.youtube.com/watch?v="

  /** The address forms, in the order they are tried. */
  const Prefixes: seq<string> := [ShortPrefix, WatchPrefix]

  /** The characters that end an id: the start of the query or of the next parameter. */
  const IdEnds: set<char> := {'&', '?'}

  /** The `ValueError` raised when no address form occurs in the address. */
  datatype UrlError = NoId(url: string)

  /** The first address form that occurs anywhere in `url`, by substring containment. */
  function FirstPrefix(url: string, ps: seq<string>): (r: Option<nat>)
    ensures r.None? <==> forall k :: 0 <= k < |ps| ==> !Contains(url, ps[k])
    ensures r.Some? ==>
      && r.value < |ps| && Contains(url, ps[r.value])
      && forall k :: 0 <= k < r.value ==> !Contains(url, ps[k])
  {
    if |ps| == 0 then None
    else if Contains(url, ps[0]) then Some(0)
    else
      match FirstPrefix(url, ps[1..])
      case None => None
      case Some(k) => Some(k + 1)
  }

  /** The id: everything after the first `len(prefix)` characters, up to the first `&` or `?`. */
  function IdAfter(rest: string): (id: string)
    ensures StartsWith(rest, id) && Avoids(id, IdEnds)
    ensures |id| == |rest| || rest[|id|] in IdEnds
  {
    SplitAnyHead(rest, IdEnds);
    SplitAny(rest, IdEnds)[0]
  }

  /** `_get_id_from_url`: the first address form found picks how many leading characters to
      skip; the id runs from there to the first `&` or `?`. */
  function IdFromUrl(url: string): (r: Result<string, UrlError>)
    ensures r.Err? <==> !Contains(url, ShortPrefix) && !Contains(url, WatchPrefix)
    ensures r.Err? ==> r.error == NoId(url)
    ensures r.Ok? && Contains(url, ShortPrefix) ==> StartsWith(Drop(url, |ShortPrefix|), r.value)
    ensures r.Ok? && !Contains(url, ShortPrefix) ==> StartsWith(Drop(url, |WatchPrefix|), r.value)
    ensures r.Ok? ==> Avoids(r.value, IdEnds)
    ensures r.Ok? ==>
      var rest := Drop(url, if Contains(url, ShortPrefix) then |ShortPrefix| else |WatchPrefix|);
      |r.value| == |rest| || rest[|r.value|] in IdEnds
  {
    assert Prefixes[0] == ShortPrefix && Prefixes[1] == WatchPrefix;
    match FirstPrefix(url, Prefixes)
    case None => Err(NoId(url))
    case Some(k) => Ok(IdAfter(Drop(url, |Prefixes[k]|)))
  }

  /** The id cut from `id + rest` is `id` when `id` holds no `&` or `?` and `rest` starts
      with one (or is empty). */
  lemma IdAfterExact(id: string, rest: string)
    requires Avoids(id, IdEnds) && (rest == "" || rest[0] in IdEnds)
    ensures IdAfter(id + rest) == id
  {
    var s, h := id + rest, IdAfter(id + rest);
    FirstEnd(id, rest);
    assert |h| == |id|;
    assert s[..|id|] == id;
  }

  /** In `id + rest` the first `&` or `?` sits right after `id`. */
  lemma FirstEnd(id: string, rest: string)
    requires Avoids(id, IdEnds) && (rest == "" || rest[0] in IdEnds)
    ensures forall k :: 0 <= k < |id| ==> (id + rest)[k] !in IdEnds
    ensures |id| < |id + rest| ==> (id + rest)[|id|] in IdEnds
    ensures forall h :: StartsWith(id + rest, h) && |h| > |id| ==> h[|id|] in IdEnds
  {
    forall h | StartsWith(id + rest, h) && |h| > |id| ensures h[|id|] in IdEnds {
      assert h[|id|] == (id + rest)[..|h|][|id|];
    }
  }

  /** A short address `https://youtu.be/<id><rest>` yields `<id>`. */
  lemma ShortRoundTrip(id: string, rest: string)
    requires Avoids(id, IdEnds) && (rest == "" || rest[0] in IdEnds)
    ensures IdFromUrl(ShortPrefix + id + rest) == Ok(id)
  {
    var url := ShortPrefix + id + rest;
    assert url[..|ShortPrefix|] == ShortPrefix;
    assert Contains(url, ShortPrefix);
    assert Drop(url, |ShortPrefix|) == id + rest;
    IdAfterExact(id, rest);
  }

  /** A watch address `https://www.youtube.com/watch?v=<id><rest>` yields `<id>`, unless the
      short form also occurs somewhere in it: that form is tried first. */
  lemma WatchRoundTrip(id: string, rest: string)
    requires Avoids(id, IdEnds) && (rest == "" || rest[0] in IdEnds)
    requires !Contains(WatchPrefix + id + rest, ShortPrefix)
    ensures IdFromUrl(WatchPrefix + id + rest) == Ok(id)
  {
    var url := WatchPrefix + id + rest;
    assert url[..|WatchPrefix|] == WatchPrefix;
    assert Contains(url, WatchPrefix);
    assert Drop(url, |WatchPrefix|) == id + rest;
    IdAfterExact(id, rest);
  }

  /** The form is found anywhere, but the cut treats it as opening the address: behind one
      leading character, the cut starts one character early and keeps the form's last `/`. */
  lemma LateOccurrence()
    ensures IdFromUrl("xhttps://youtu.be/abc") == Ok("/abc")
  {
    var url := "xhttps://youtu.be/abc";
    assert url[1..1 + |ShortPrefix|] == ShortPrefix;
    ContainsAt(url, ShortPrefix, 1);
    assert Drop(url, |ShortPrefix|) == "/abc" == "/abc" + "";
    IdAfterExact("/abc", "");
  }
}
