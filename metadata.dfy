/**
 * Metadata resolution for one movie id. The HTTP call is abstracted as a
 * `Response`: either no response at all (connection error, timeout), or a
 * status code with the body decoded as JSON when it is valid JSON. What is
 * left is the defensive extraction of display fields from that value, with a
 * documented default for every field.
 */
module Metadata {
  import opened Wrappers

  /** A decoded JSON value as Python's `json` module returns it. */
  datatype JValue =
    | JNull
    | JBool(b: bool)
    | JInt(i: int)
    | JFloat(f: real)
    | JStr(s: string)
    | JList(items: seq<JValue>)
    | JObj(fields: map<string, JValue>)

  /** Python truthiness of a decoded value. */
  predicate Truthy(v: JValue) {
    match v
    case JNull => false
    case JBool(b) => b
    case JInt(i) => i != 0
    case JFloat(f) => f != 0.0
    case JStr(s) => |s| > 0
    case JList(items) => |items| > 0
    case JObj(fields) => |fields| > 0
  }

  /** `dict.get(key)`: the value under the key, or None. */
  function Get(fields: map<string, JValue>, key: string): JValue {
    if key in fields then fields[key] else JNull
  }

  /** The outcome of `requests.get(url)` followed by `.json()`. */
  datatype Response =
    | ConnectionFailed                          // requests.get raised
    | Reply(status: int, body: Option<JValue>)  // body is None when .json() raises

  /**
   * The two Python built-ins the extraction applies and this model does not
   * define: `str()` of a non-string JSON value (used when formatting a
   * poster path) and `round(x, 1)` on a float.
   */
  datatype Builtins = Builtins(strOf: JValue -> string, round1: real -> real)

  const Placeholder: string := "https://via.placeholder.com/500x750?text=No+Poster"
  const ImageBase: string := "http://image.tmdb.org/t/p/w500/"
  const NoOverview: string := "Description unavailable."

  // ---------------------------------------------------------------------------
  // Poster

  /** The f-string rendering of a value: a string as it is, anything else through `str()`. */
  function Text(v: JValue, py: Builtins): string {
    if v.JStr? then v.s else py.strOf(v)
  }

  predicate HasImageBase(url: string) {
    |url| >= |ImageBase| && url[..|ImageBase|] == ImageBase
  }

  lemma PlaceholderIsNoImage()
    ensures !HasImageBase(Placeholder)
  {
    assert Placeholder == "https://via.placeholder.com/" + "500x750?text=No+Poster";
    assert Placeholder[4] == 's' && ImageBase[4] == ':';
    assert Placeholder[..|ImageBase|][4] == Placeholder[4];
  }

  /** The poster URL: the image prefix and the path when the path is truthy, else the placeholder. */
  function PosterFor(path: JValue, py: Builtins): (url: string)
    ensures Truthy(path) ==> url == ImageBase + Text(path, py)
    ensures path.JStr? && path.s != [] ==> url == ImageBase + path.s
    ensures !Truthy(path) ==> url == Placeholder
  {
    if Truthy(path) then ImageBase + Text(path, py) else Placeholder
  }

  /** The two poster outcomes can be told apart: only a truthy path gives a URL under the image prefix. */
  lemma PosterDistinguishable(path: JValue, py: Builtins)
    ensures HasImageBase(PosterFor(path, py)) <==> Truthy(path)
  {
    if !Truthy(path) {
      PlaceholderIsNoImage();
    } else {
      assert PosterFor(path, py)[..|ImageBase|] == ImageBase;
    }
  }

  // ---------------------------------------------------------------------------
  // Overview: Python's str.strip()

  /** The characters for which Python's `str.isspace()` holds. */
  predicate IsSpace(c: char) {
    || ('\t' <= c <= '\r') || ('\U{1C}' <= c <= '\U{1F}') || c == ' '
    || c == '\U{85}' || c == '\U{A0}' || c == '\U{1680}' || ('\U{2000}' <= c <= '\U{200A}')
    || c == '\U{2028}' || c == '\U{2029}' || c == '\U{202F}' || c == '\U{205F}' || c == '\U{3000}'
  }

  ghost predicate Blank(s: string) {
    forall k :: 0 <= k < |s| ==> IsSpace(s[k])
  }

  /** `r` is `s` from position `i` on, with only whitespace around it in `s`. */
  ghost predicate StrippedAt(s: string, r: string, i: int) {
    && 0 <= i <= |s| - |r| && r == s[i..i + |r|]
    && (forall k :: 0 <= k < i ==> IsSpace(s[k]))
    && (forall k :: i + |r| <= k < |s| ==> IsSpace(s[k]))
  }

  /** `s.lstrip()`. */
  function TrimStart(s: string): string {
    if |s| > 0 && IsSpace(s[0]) then TrimStart(s[1..]) else s
  }

  /** `s.rstrip()`. */
  function TrimEnd(s: string): string {
    if |s| > 0 && IsSpace(s[|s| - 1]) then TrimEnd(s[..|s| - 1]) else s
  }

  /** `s.strip()`. */
  function Strip(s: string): string {
    TrimEnd(TrimStart(s))
  }

  /** `lstrip` removes a whitespace prefix and nothing more: what is left is empty or starts with a non-space. */
  lemma {:induction false} TrimStartSpec(s: string)
    ensures |TrimStart(s)| <= |s| && TrimStart(s) == s[|s| - |TrimStart(s)|..]
    ensures forall k :: 0 <= k < |s| - |TrimStart(s)| ==> IsSpace(s[k])
    ensures TrimStart(s) != [] ==> !IsSpace(TrimStart(s)[0])
  {
    if |s| > 0 && IsSpace(s[0]) {
      TrimStartSpec(s[1..]);
      var t := TrimStart(s[1..]);
      assert s[1..][|s| - 1 - |t|..] == s[|s| - |t|..];
      forall k | 0 <= k < |s| - |t| ensures IsSpace(s[k]) {
        if k > 0 { assert s[k] == s[1..][k - 1]; }
      }
    }
  }

  /** `rstrip` removes a whitespace suffix and nothing more: what is left is empty or ends with a non-space. */
  lemma {:induction false} TrimEndSpec(s: string)
    ensures |TrimEnd(s)| <= |s| && TrimEnd(s) == s[..|TrimEnd(s)|]
    ensures forall k :: |TrimEnd(s)| <= k < |s| ==> IsSpace(s[k])
    ensures TrimEnd(s) != [] ==> !IsSpace(TrimEnd(s)[|TrimEnd(s)| - 1])
  {
    if |s| > 0 && IsSpace(s[|s| - 1]) {
      var p := s[..|s| - 1];
      TrimEndSpec(p);
      var t := TrimEnd(p);
      assert p[..|t|] == s[..|t|];
      forall k | |t| <= k < |s| ensures IsSpace(s[k]) {
        if k < |s| - 1 { assert s[k] == p[k]; }
      }
    }
  }

  /**
   * `s.strip()` is the part of `s` between its leading and trailing
   * whitespace: it is empty exactly when `s` is blank, and otherwise starts
   * and ends with a non-space character.
   */
  lemma StripSpec(s: string)
    ensures exists i :: StrippedAt(s, Strip(s), i)
    ensures Strip(s) != [] ==> !IsSpace(Strip(s)[0]) && !IsSpace(Strip(s)[|Strip(s)| - 1])
    ensures Strip(s) == [] <==> Blank(s)
  {
    var t := TrimStart(s);
    var r := TrimEnd(t);
    TrimStartSpec(s);
    TrimEndSpec(t);
    var i := |s| - |t|;
    forall k | i + |r| <= k < |s| ensures IsSpace(s[k]) {
      assert s[k] == t[k - i];
    }
    assert r == Strip(s) && StrippedAt(s, r, i);
    if r != [] {
      assert s[i] == r[0];
    }
  }

  /** The overview: the stripped text when it is a string with some non-space character, else the fixed message. */
  function OverviewFor(v: JValue): (o: string)
    ensures v.JStr? && !Blank(v.s) ==> o == Strip(v.s) && o != []
    ensures !(v.JStr? && !Blank(v.s)) ==> o == NoOverview
  {
    if v.JStr? then
      StripSpec(v.s);
      if Strip(v.s) != [] then Strip(v.s) else NoOverview
    else NoOverview
  }

  // ---------------------------------------------------------------------------
  // Rating, year, runtime

  /** `isinstance(v, (int, float))`; a Python bool is an int. */
  predicate IsNumber(v: JValue) {
    v.JInt? || v.JFloat? || v.JBool?
  }

  /** `float(v)` for a number. */
  function AsFloat(v: JValue): real
    requires IsNumber(v)
  {
    match v
    case JInt(i) => i as real
    case JFloat(f) => f
    case JBool(b) => if b then 1.0 else 0.0
  }

  /** The rating: `round(float(v), 1)` when the vote is a number, else none. */
  function RatingFor(v: JValue, py: Builtins): (r: Option<real>)
    ensures r.Some? <==> IsNumber(v)
    ensures r.Some? ==> r.value == py.round1(AsFloat(v))
  {
    if IsNumber(v) then Some(py.round1(AsFloat(v))) else None
  }

  /** The year: the first four characters of a release date of at least four characters. */
  function YearFor(v: JValue): (y: Option<string>)
    ensures y.Some? <==> v.JStr? && |v.s| >= 4
    ensures y.Some? ==> |y.value| == 4 && y.value <= v.s
  {
    if v.JStr? && |v.s| >= 4 then Some(v.s[..4]) else None
  }

  /** The runtime: a positive int (`True` counts as the int 1), else none. */
  function RuntimeFor(v: JValue): (r: Option<int>)
    ensures r.Some? <==> (v.JInt? && v.i > 0) || v == JBool(true)
    ensures r.Some? ==> r.value > 0
    ensures r.Some? && v.JInt? ==> r.value == v.i
  {
    match v
    case JInt(i) => if i > 0 then Some(i) else None
    case JBool(b) => if b then Some(1) else None
    case _ => None
  }

  // ---------------------------------------------------------------------------
  // Genres

  /** A list element the genre comprehension keeps: a dict with a truthy `name`. */
  predicate IsNamed(g: JValue) {
    g.JObj? && Truthy(Get(g.fields, "name"))
  }

  function NameOf(g: JValue): JValue
    requires g.JObj?
  {
    Get(g.fields, "name")
  }

  /** `[g.get('name') for g in gs if isinstance(g, dict) and g.get('name')]`. */
  function GenreNames(gs: seq<JValue>): (r: seq<JValue>)
    ensures |r| <= |gs|
    ensures forall k :: 0 <= k < |r| ==> Truthy(r[k])
  {
    if |gs| == 0 then []
    else (if IsNamed(gs[0]) then [NameOf(gs[0])] else []) + GenreNames(gs[1..])
  }

  /** The genres: the comprehension over the value when it is a list, else the empty list. */
  function GenresFor(v: JValue): (g: seq<JValue>)
    ensures !v.JList? ==> g == []
    ensures v.JList? ==> g == GenreNames(v.items)
  {
    if v.JList? then GenreNames(v.items) else []
  }

  /** The comprehension works element by element, so it distributes over concatenation. */
  lemma {:induction false} GenreNamesAppend(a: seq<JValue>, b: seq<JValue>)
    ensures GenreNames(a + b) == GenreNames(a) + GenreNames(b)
  {
    if |a| > 0 {
      assert (a + b)[0] == a[0] && (a + b)[1..] == a[1..] + b;
      GenreNamesAppend(a[1..], b);
      var h := if IsNamed(a[0]) then [NameOf(a[0])] else [];
      assert GenreNames(a + b) == h + GenreNames(a[1..] + b);
      assert GenreNames(a) == h + GenreNames(a[1..]);
    } else {
      assert a + b == b;
    }
  }

  /** In order: one more element adds its name at the end exactly when it is a named dict. */
  lemma GenreNamesSnoc(gs: seq<JValue>, g: JValue)
    ensures GenreNames(gs + [g]) == GenreNames(gs) + (if IsNamed(g) then [NameOf(g)] else [])
  {
    GenreNamesAppend(gs, [g]);
    assert [g][1..] == [];
  }

  /** A value is among the genres exactly when some element of the list is a named dict with that name. */
  lemma {:induction false} GenreNamesMembers(gs: seq<JValue>, x: JValue)
    ensures x in GenreNames(gs) <==> exists i :: 0 <= i < |gs| && IsNamed(gs[i]) && NameOf(gs[i]) == x
  {
    if |gs| > 0 {
      GenreNamesMembers(gs[1..], x);
      if exists i :: 0 <= i < |gs| && IsNamed(gs[i]) && NameOf(gs[i]) == x {
        var i :| 0 <= i < |gs| && IsNamed(gs[i]) && NameOf(gs[i]) == x;
        if i > 0 { assert gs[1..][i - 1] == gs[i]; }
      }
      if x in GenreNames(gs[1..]) {
        var i :| 0 <= i < |gs| - 1 && IsNamed(gs[1..][i]) && NameOf(gs[1..][i]) == x;
        assert gs[i + 1] == gs[1..][i];
      }
    }
  }

  // ---------------------------------------------------------------------------
  // fetch_details

  /** The six display fields `fetch_details` returns. */
  datatype Details = Details(
    poster: string,
    overview: string,
    rating: Option<real>,
    year: Option<string>,
    genres: seq<JValue>,
    runtime: Option<int>)

  /** The values `fetch_details` starts from and returns when anything fails. */
  const Defaults: Details := Details(Placeholder, NoOverview, None, None, [], None)

  /** `raise_for_status()` raises for client and server errors. */
  predicate ErrorStatus(status: int) {
    400 <= status < 600
  }

  /**
   * The decoded object, when the call succeeded, the status is not an error,
   * the body is JSON and that JSON is an object (anything else has no `.get`).
   */
  function DecodedObject(resp: Response): (m: Option<map<string, JValue>>)
    ensures m.Some? <==> resp.Reply? && !ErrorStatus(resp.status) && resp.body.Some? && resp.body.value.JObj?
  {
    match resp
    case ConnectionFailed => None
    case Reply(status, body) =>
      if !ErrorStatus(status) && body.Some? && body.value.JObj? then Some(body.value.fields) else None
  }

  /** `data.get(key)` on the decoded object; None when there is no object. */
  function Field(resp: Response, key: string): JValue {
    match DecodedObject(resp)
    case None => JNull
    case Some(m) => Get(m, key)
  }

  /**
   * The details `fetch_details` returns: all defaults when the call, the
   * status, the decoding or the object shape fails; otherwise each field
   * taken from its own key alone, so one malformed field leaves the others intact.
   */
  function ExtractDetails(resp: Response, py: Builtins): (d: Details)
    ensures DecodedObject(resp).None? ==> d == Defaults
    ensures d.poster == PosterFor(Field(resp, "poster_path"), py)
    ensures d.overview == OverviewFor(Field(resp, "overview"))
    ensures d.rating == RatingFor(Field(resp, "vote_average"), py)
    ensures d.year == YearFor(Field(resp, "release_date"))
    ensures d.genres == GenresFor(Field(resp, "genres"))
    ensures d.runtime == RuntimeFor(Field(resp, "runtime"))
  {
    Details(
      PosterFor(Field(resp, "poster_path"), py),
      OverviewFor(Field(resp, "overview")),
      RatingFor(Field(resp, "vote_average"), py),
      YearFor(Field(resp, "release_date")),
      GenresFor(Field(resp, "genres")),
      RuntimeFor(Field(resp, "runtime")))
  }

  /**
   * `fetch_details` as written: six locals start at their defaults and are
   * reassigned one by one while the decoded response is inspected.
   */
  method FetchDetails(resp: Response, py: Builtins) returns (d: Details)
    ensures d == ExtractDetails(resp, py)
  {
    var poster := Placeholder;
    var overview := NoOverview;
    var rating: Option<real> := None;
    var year: Option<string> := None;
    var genres: seq<JValue> := [];
    var runtime: Option<int> := None;
    if resp.Reply? && !ErrorStatus(resp.status) && resp.body.Some? && resp.body.value.JObj? {
      var data := resp.body.value.fields;
      var posterPath := Get(data, "poster_path");
      if Truthy(posterPath) {
        poster := ImageBase + Text(posterPath, py);
      }
      assert poster == PosterFor(Field(resp, "poster_path"), py);
      var ov := Get(data, "overview");
      if ov.JStr? && Strip(ov.s) != [] {
        overview := Strip(ov.s);
      }
      assert overview == OverviewFor(Field(resp, "overview"));
      var vote := Get(data, "vote_average");
      if IsNumber(vote) {
        rating := Some(py.round1(AsFloat(vote)));
      }
      assert rating == RatingFor(Field(resp, "vote_average"), py);
      var rd := Get(data, "release_date");
      if rd.JStr? && |rd.s| >= 4 {
        year := Some(rd.s[..4]);
      }
      assert year == YearFor(Field(resp, "release_date"));
      var gs := Get(data, "genres");
      if gs.JList? {
        genres := GenreNames(gs.items);
      }
      assert genres == GenresFor(Field(resp, "genres"));
      var rt := Get(data, "runtime");
      if rt.JInt? && rt.i > 0 {
        runtime := Some(rt.i);
      } else if rt == JBool(true) {
        runtime := Some(1);
      }
      assert runtime == RuntimeFor(Field(resp, "runtime"));
    }
    d := Details(poster, overview, rating, year, genres, runtime);
  }

  // ---------------------------------------------------------------------------
  // fetch_poster (the variant without try block and without raise_for_status)

  /**
   * `fetch_poster`: the poster URL from the decoded object whatever the
   * status; none (the call raises) when there is no response, the body is not
   * JSON, or the JSON is not an object.
   */
  function FetchPoster(resp: Response, py: Builtins): (r: Option<string>)
    ensures r.None? <==> resp.ConnectionFailed? || resp.body.None? || !resp.body.value.JObj?
    ensures r.Some? ==> r.value == PosterFor(Get(resp.body.value.fields, "poster_path"), py)
  {
    match resp
    case ConnectionFailed => None
    case Reply(_, body) =>
      if body.Some? && body.value.JObj? then Some(PosterFor(Get(body.value.fields, "poster_path"), py)) else None
  }

  /**
   * Both front-ends agree on the poster whenever `fetch_details` gets a
   * decoded object; on an error status with an object body `fetch_poster`
   * still reads the body while `fetch_details` falls back to the placeholder.
   */
  lemma PosterVariantsAgree(resp: Response, py: Builtins)
    ensures DecodedObject(resp).Some? ==> FetchPoster(resp, py) == Some(ExtractDetails(resp, py).poster)
    ensures resp.Reply? && ErrorStatus(resp.status) && resp.body.Some? && resp.body.value.JObj? ==>
      FetchPoster(resp, py).Some? && ExtractDetails(resp, py).poster == Placeholder
  {
  }
}
