/**
 * The browser client: one page whose event handlers reassign a few shared
 * variables (the active database, the pending search timer) and redraw the
 * data view. Each `fetch` is split in two: the handler that issues it
 * returns the request it sends, and a second method takes the response when
 * it arrives. The DOM is reduced to what the handlers read back from it:
 * the rendered listing, the search box's text and the edit form.
 */
module Client {
  import opened Wrappers
  import opened Handler
  import opened UrlEscape
  import opened Markup

  /** One query parameter, as `URLSearchParams.append` adds it (before encoding). */
  datatype Param = Param(name: string, value: string)

  /** A `GET` of a key listing: the path and the query parameters in the order they were appended. */
  datatype ListRequest = ListRequest(path: string, params: seq<Param>)

  /** A search that the debounce timer will issue: the listing's database and the typed prefix. */
  datatype Search = Search(db: string, prefix: string)

  /** A rendered table row. `id` stands for the row's DOM element, which a delete button is bound to. */
  datatype Row = Row(id: nat, key: string)

  /**
   * What the data view shows: nothing yet, a rendered page of keys with its
   * Next button and search box, or the load error.
   */
  datatype View =
    | Blank
    | Table(db: string, rows: seq<Row>, nextKey: Option<string>, prefix: string, searchText: string)
    | LoadError

  /** What submitting the edit form does. */
  datatype Submission =
    | Ignored
    | EmptyKeyAlert
    | Post(path: string, payload: Payload)

  /** JavaScript truthiness of a string that may be `null` or `undefined`: present and not empty. */
  predicate Truthy(s: Option<string>)
  {
    s.Some? && s.value != ""
  }

  /** The listing path of a database; the name is put into the path as it is. */
  function ListPath(db: string): string
  {
    ApiDbPrefix + db + "/keys"
  }

  /** The path the edit form posts to. */
  function SetPath(db: string): string
  {
    ApiDbPrefix + db + "/key"
  }

  /** The path a delete is sent to: the name as it is and the key through `encodeURIComponent`. */
  function DeletePath(db: string, key: string): string
  {
    ApiDbPrefix + db + "/key/" + EncodeComponent(key)
  }

  /** Whether a parameter of that name was appended. */
  predicate HasParam(params: seq<Param>, name: string)
  {
    exists i :: 0 <= i < |params| && params[i].name == name
  }

  /** `params[i]` is the first parameter called `name`. */
  predicate FirstNamed(params: seq<Param>, name: string, i: int)
  {
    0 <= i < |params| && params[i].name == name && forall j :: 0 <= j < i ==> params[j].name != name
  }

  /** Go's `Query().Get`: the first value of the parameter, or "" when it is absent. */
  function QueryGet(params: seq<Param>, name: string): (v: string)
    ensures !HasParam(params, name) ==> v == ""
    ensures |params| > 0 && params[0].name == name ==> v == params[0].value
    ensures HasParam(params, name) ==> exists i :: FirstNamed(params, name, i) && v == params[i].value
  {
    if params == [] then ""
    else if params[0].name == name then
      assert FirstNamed(params, name, 0);
      params[0].value
    else
      var v := QueryGet(params[1..], name);
      FirstNamedShift(params, name);
      v
  }

  /** Past a first parameter of another name, the first one called `name` is one further along. */
  lemma FirstNamedShift(params: seq<Param>, name: string)
    requires params != [] && params[0].name != name
    ensures HasParam(params, name) ==> HasParam(params[1..], name)
    ensures forall i :: FirstNamed(params[1..], name, i) ==> FirstNamed(params, name, i + 1)
  {
  }

  /** The query the key-listing handler reads from the parameters. */
  function QueryOf(params: seq<Param>): Query
  {
    Query(QueryGet(params, "start"), QueryGet(params, "prefix"), QueryGet(params, "limit"))
  }

  /**
   * `req` asks for the page of `db` at `start` within `prefix`: the server
   * reads back exactly those values and the default limit, and each
   * parameter is sent only when it is not empty.
   */
  predicate Asks(req: ListRequest, db: string, start: string, prefix: string)
  {
    && req.path == ListPath(db)
    && QueryOf(req.params) == Query(start, prefix, "")
    && (HasParam(req.params, "start") <==> start != "")
    && (HasParam(req.params, "prefix") <==> prefix != "")
  }

  /** Builds the listing URL by appending `start` and then `prefix`, each only when truthy. */
  method ListingUrl(db: string, start: string, prefix: string) returns (req: ListRequest)
    ensures Asks(req, db, start, prefix)
    ensures start == "" && prefix == "" ==> req.params == []
  {
    var params: seq<Param> := [];
    if start != "" {
      params := params + [Param("start", start)];
    }
    if prefix != "" {
      params := params + [Param("prefix", prefix)];
    }
    req := ListRequest(ListPath(db), params);
  }

  /**
   * A database name that reaches the router as the client writes it: one
   * the router accepts (not empty, no `/`), holding none of the characters
   * that the browser's URL parser or net/http's decoding treats specially
   * (`?` and `#` end the path, `%` starts an escape, `\` becomes `/`, tabs
   * and line breaks are dropped), and not the dot segment `.` or `..`.
   */
  predicate UrlSafeName(db: string)
  {
    && IsDbName(db) && db != "." && db != ".."
    && '?' !in db && '#' !in db && '%' !in db && '\\' !in db
    && '\t' !in db && '\n' !in db && '\r' !in db
  }

  /** No `%` in a text built from pieces without one. */
  lemma NoPercentIn(db: string, tail: string)
    requires '%' !in db && '%' !in tail
    ensures '%' !in ApiDbPrefix + db + tail
  {
  }

  /** The listing path of such a name survives net/http's decoding and reaches the key-listing handler. */
  lemma ListingRoutes(db: string, unescape: string -> Option<string>)
    requires UrlSafeName(db)
    ensures PercentDecode(ListPath(db)) == Some(ListPath(db))
    ensures Route(ListPath(db), MethodGet, unescape) == ListKeys(db)
  {
    NoPercentIn(db, "/keys");
    DecodeVerbatim(ListPath(db));
    RouteKeys(db, "", MethodGet, unescape);
    assert ListPath(db) == ApiDbPrefix + db + "/keys" + "";
  }

  /** The edit form's POST survives net/http's decoding and reaches the set-key handler. */
  lemma SetRoutes(db: string, unescape: string -> Option<string>)
    requires UrlSafeName(db) && unescape("") == Some("")
    ensures PercentDecode(SetPath(db)) == Some(SetPath(db))
    ensures Route(SetPath(db), MethodPost, unescape) == StoreKey(db)
  {
    NoPercentIn(db, "/key");
    DecodeVerbatim(SetPath(db));
    RouteKeyBare(db, MethodPost, unescape);
  }

  /**
   * The path `fetch` requests for a Delete. Its URL parser removes dot
   * segments; the name is `UrlSafeName` and the encoded key holds no `/`,
   * so only the key's own segment can be one, and `encodeURIComponent`
   * writes one only for the keys `.` and `..`.
   */
  function SentDeletePath(db: string, key: string): (path: string)
    ensures key != "." && key != ".." ==> path == DeletePath(db, key)
    ensures key == "." ==> path == ApiDbPrefix + db + "/key/"
    ensures key == ".." ==> path == ApiDbPrefix + db + "/"
  {
    EncodedDotSegment(key);
    assert ApiDbPrefix + db + "/" + "key/" == ApiDbPrefix + db + "/key/";
    ResolveLastSegment(ApiDbPrefix + db + "/", "key/", EncodeComponent(key))
  }

  /**
   * A DELETE is decoded twice on the server: net/http turns the target into
   * `r.URL.Path`, decoding the encoded key once, and the handler's
   * `unescape` decodes that again. For every key but `.` and `..`, which
   * the browser does not send as written, the delete handler gets the
   * original key exactly when the second decoding gives it back.
   */
  lemma DeleteRoutes(db: string, key: string, unescape: string -> Option<string>)
    requires UrlSafeName(db)
    ensures PercentDecode(DeletePath(db, key)) ==
      if PercentDecode(EncodeComponent(key)).Some?
      then Some(ApiDbPrefix + db + "/key/" + PercentDecode(EncodeComponent(key)).value)
      else None
    ensures key != "." && key != ".." && PercentDecode(EncodeComponent(key)).Some? ==>
      (Route(PercentDecode(SentDeletePath(db, key)).value, MethodDelete, unescape) == RemoveKey(db, key)
       <==> unescape(PercentDecode(EncodeComponent(key)).value) == Some(key))
  {
    NoPercentIn(db, "/key/");
    DecodePlain(ApiDbPrefix + db + "/key/", EncodeComponent(key));
    if PercentDecode(EncodeComponent(key)).Some? {
      RouteKey(db, PercentDecode(EncodeComponent(key)).value, MethodDelete, unescape);
    }
  }

  /**
   * The keys `.` and `..` are written unchanged by `encodeURIComponent`, and
   * the URL parser drops them as dot segments: the Delete of `.` removes the
   * empty key, and the Delete of `..` asks for no action and is not found.
   */
  lemma DotKeysMisrouted(db: string)
    requires UrlSafeName(db)
    ensures SentDeletePath(db, ".") == ApiDbPrefix + db + "/key/"
    ensures SentDeletePath(db, "..") == ApiDbPrefix + db + "/"
    ensures PercentDecode(ApiDbPrefix + db + "/key/") == Some(ApiDbPrefix + db + "/key/")
    ensures PercentDecode(ApiDbPrefix + db + "/") == Some(ApiDbPrefix + db + "/")
    ensures Route(ApiDbPrefix + db + "/key/", MethodDelete, PercentDecode) == RemoveKey(db, "")
    ensures Route(ApiDbPrefix + db + "/", MethodDelete, PercentDecode) == NoSuchAction
  {
    NoPercentIn(db, "/key/");
    DecodeVerbatim(ApiDbPrefix + db + "/key/");
    NoPercentIn(db, "/");
    DecodeVerbatim(ApiDbPrefix + db + "/");
    assert PercentDecode("") == Some("");
    RouteKey(db, "", MethodDelete, PercentDecode);
    assert ApiDbPrefix + db + "/key/" + "" == ApiDbPrefix + db + "/key/";
    RouteOtherAction(db, "", "", MethodDelete, PercentDecode);
    assert ApiDbPrefix + db + "/" + "" + "" == ApiDbPrefix + db + "/";
  }

  /**
   * The key `50%` cannot be deleted: it is sent as `50%25`, net/http hands
   * the handler `50%`, and the handler's `url.PathUnescape` refuses that.
   */
  lemma PercentKeyRefused(db: string)
    requires UrlSafeName(db)
    ensures PercentDecode(DeletePath(db, "50%")) == Some(ApiDbPrefix + db + "/key/50%")
    ensures Route(ApiDbPrefix + db + "/key/50%", MethodDelete, PercentDecode) == BadKeyEscape
  {
    EncodePercentKey();
    DecodeSentKey();
    var dir := ApiDbPrefix + db + "/key/";
    NoPercentIn(db, "/key/");
    DecodePlain(dir, "50%25");
    assert dir + "50%" == ApiDbPrefix + db + "/key/50%";
    RouteKey(db, "50%", MethodDelete, PercentDecode);
  }

  /** `encodeURIComponent("50%")` is `50%25`. */
  lemma EncodePercentKey()
    ensures EncodeComponent("50%") == "50%25"
  {
  }

  /** net/http decodes `50%25` to `50%`, which does not decode again. */
  lemma DecodeSentKey()
    ensures PercentDecode("50%25") == Some("50%")
    ensures PercentDecode("50%") == None
  {
    DecodeEscape('2', '5', []);
    assert HexValue('2') == 2 && HexValue('5') == 5 && (2 * 16 + 5) as char == '%';
    assert ['%', '2', '5'] + [] == "%25";
    assert PercentDecode([]) == Some([]);
    var c := (HexValue('2') * 16 + HexValue('5')) as char;
    assert c == '%' && [c] + [] == "%";
    DecodePlain("50", "%25");
    assert "50" + "%25" == "50%25" && "50" + "%" == "50%";
    DecodePlain("50", "%");
  }

  /**
   * The key `%41` is sent as `%2541`, net/http hands the handler `%41`, and
   * the handler decodes that to `A`: the DELETE removes the key `A`.
   */
  lemma EscapedKeyDeletesOther(db: string)
    requires UrlSafeName(db)
    ensures PercentDecode(DeletePath(db, "%41")) == Some(ApiDbPrefix + db + "/key/%41")
    ensures Route(ApiDbPrefix + db + "/key/%41", MethodDelete, PercentDecode) == RemoveKey(db, "A")
  {
    EncodeEscapedKey();
    DecodeEscapedKey();
    var dir := ApiDbPrefix + db + "/key/";
    NoPercentIn(db, "/key/");
    DecodePlain(dir, "%2541");
    assert dir + "%41" == ApiDbPrefix + db + "/key/%41";
    RouteKey(db, "%41", MethodDelete, PercentDecode);
  }

  /** `encodeURIComponent("%41")` is `%2541`. */
  lemma EncodeEscapedKey()
    ensures EncodeComponent("%41") == "%2541"
  {
  }

  /** net/http decodes `%2541` to `%41`, which decodes again to `A`. */
  lemma DecodeEscapedKey()
    ensures PercentDecode("%2541") == Some("%41")
    ensures PercentDecode("%41") == Some("A")
  {
    DecodeEscape('2', '5', "41");
    DecodeVerbatim("41");
    assert ['%', '2', '5'] + "41" == "%2541";
    var pct := (HexValue('2') * 16 + HexValue('5')) as char;
    assert pct == '%' && [pct] + "41" == "%41";
    DecodeEscape('4', '1', []);
    assert PercentDecode([]) == Some([]);
    assert ['%', '4', '1'] + [] == "%41";
    var a := (HexValue('4') * 16 + HexValue('1')) as char;
    assert a == 'A' && [a] + [] == "A";
  }

  /** The key as net/http decoded it, with no second decoding. */
  function Verbatim(s: string): Option<string>
  {
    Some(s)
  }

  /**
   * With the key taken from `r.URL.Path` as net/http decoded it, a DELETE
   * from the client reaches the delete handler with exactly the clicked
   * key, for every ASCII key the browser sends as written.
   */
  lemma DeleteRoutesDecodedOnce(db: string, key: string)
    requires UrlSafeName(db) && IsAscii(key) && key != "." && key != ".."
    ensures PercentDecode(SentDeletePath(db, key)) == Some(ApiDbPrefix + db + "/key/" + key)
    ensures Route(ApiDbPrefix + db + "/key/" + key, MethodDelete, Verbatim) == RemoveKey(db, key)
  {
    DecodeOfEncode(key);
    DeleteRoutes(db, key, Verbatim);
  }

  /**
   * The corrected Delete target: the key encoded with its dots escaped too,
   * then encoded once more for the handler's second decoding
   * (`encodeURIComponent(encodeURIComponent(key).replaceAll('.', '%2E'))`).
   */
  function EscapedDeletePath(db: string, key: string): string
  {
    ApiDbPrefix + db + "/key/" + EncodeComponent(EncodeDots(key))
  }

  /**
   * With the corrected target and the handler as it is, every ASCII key
   * reaches the delete handler as clicked: the URL parser finds no dot
   * segment, net/http decodes the target once and `url.PathUnescape` once more.
   */
  lemma DeleteRoutesEscaped(db: string, key: string)
    requires UrlSafeName(db) && IsAscii(key)
    ensures ResolveLastSegment(ApiDbPrefix + db + "/", "key/", EncodeComponent(EncodeDots(key))) == EscapedDeletePath(db, key)
    ensures PercentDecode(EscapedDeletePath(db, key)) == Some(ApiDbPrefix + db + "/key/" + EncodeDots(key))
    ensures Route(ApiDbPrefix + db + "/key/" + EncodeDots(key), MethodDelete, PercentDecode) == RemoveKey(db, key)
  {
    EscapedSegmentKept(db, key);
    EscapedDecodedOnce(db, key);
    DecodeOfEncodeDots(key);
    RouteKey(db, EncodeDots(key), MethodDelete, PercentDecode);
  }

  /** A key with its dots escaped is encoded to no dot segment. */
  lemma EscapedSegmentKept(db: string, key: string)
    ensures ResolveLastSegment(ApiDbPrefix + db + "/", "key/", EncodeComponent(EncodeDots(key))) == EscapedDeletePath(db, key)
  {
    assert '.' in "." && '.' in "..";
    EncodedDotSegment(EncodeDots(key));
    assert ApiDbPrefix + db + "/" + "key/" == ApiDbPrefix + db + "/key/";
  }

  /** net/http's decoding of the corrected target leaves the key with its dots escaped. */
  lemma EscapedDecodedOnce(db: string, key: string)
    requires UrlSafeName(db) && IsAscii(key)
    ensures PercentDecode(EscapedDeletePath(db, key)) == Some(ApiDbPrefix + db + "/key/" + EncodeDots(key))
  {
    EncodeDotsAscii(key);
    DecodeOfEncode(EncodeDots(key));
    NoPercentIn(db, "/key/");
    DecodePlain(ApiDbPrefix + db + "/key/", EncodeComponent(EncodeDots(key)));
  }

  /** A row whose key holds `"`: its Delete button sends the key `a` for the key `a"b`. */
  lemma QuotedKeyDeletesAnother(db: string)
    ensures DeletePath(db, AttrValue(EscapeText("a\"b"))) == DeletePath(db, "a")
  {
    QuoteCutsKey();
  }

  /** No two rows share an element. */
  predicate DistinctIds(rows: seq<Row>)
  {
    forall i, j :: 0 <= i < j < |rows| ==> rows[i].id != rows[j].id
  }

  /** The rows rendered for a page of keys: one new element per key, in order, numbered from `from`. */
  function RowsFor(keys: seq<string>, from: nat): (rows: seq<Row>)
    ensures |rows| == |keys|
    ensures forall i :: 0 <= i < |rows| ==> rows[i].key == keys[i]
    ensures DistinctIds(rows)
    ensures forall r :: r in rows ==> from <= r.id < from + |keys|
  {
    seq(|keys|, i requires 0 <= i < |keys| => Row(from + i, keys[i]))
  }

  /** The table with the row of element `id` removed (`tr.remove()`); a row no longer displayed removes nothing. */
  function WithoutRow(rows: seq<Row>, id: nat): (rest: seq<Row>)
    ensures forall r :: r in rest <==> r in rows && r.id != id
    ensures DistinctIds(rows) ==> DistinctIds(rest)
  {
    if rows == [] then []
    else if rows[0].id == id then WithoutRow(rows[1..], id)
    else
      var tail := WithoutRow(rows[1..], id);
      assert forall r :: r in tail ==> r in rows[1..];
      [rows[0]] + tail
  }

  /** Removing a row that is not there changes nothing. */
  lemma {:induction false} WithoutAbsentRow(rows: seq<Row>, id: nat)
    requires forall r :: r in rows ==> r.id != id
    ensures WithoutRow(rows, id) == rows
  {
    if rows != [] {
      WithoutAbsentRow(rows[1..], id);
      assert rows == [rows[0]] + rows[1..];
    }
  }

  /** With distinct elements, deleting the row at `i` removes that row and keeps the others in order. */
  lemma {:induction false} WithoutRowAt(rows: seq<Row>, i: nat)
    requires DistinctIds(rows) && i < |rows|
    ensures WithoutRow(rows, rows[i].id) == rows[..i] + rows[i + 1..]
  {
    TailDistinct(rows);
    if i == 0 {
      WithoutAbsentRow(rows[1..], rows[0].id);
    } else {
      WithoutRowAt(rows[1..], i - 1);
      WithoutRowKeepsFirst(rows, rows[i].id);
      SkipAt(rows, i);
    }
  }

  /** The rows after the first are distinct and none shares the first one's element. */
  lemma TailDistinct(rows: seq<Row>)
    requires DistinctIds(rows) && rows != []
    ensures DistinctIds(rows[1..])
    ensures forall r :: r in rows[1..] ==> r.id != rows[0].id
  {
    var tail := rows[1..];
    forall a, b | 0 <= a < b < |tail| ensures tail[a].id != tail[b].id {
      assert tail[a] == rows[a + 1] && tail[b] == rows[b + 1];
    }
    forall r | r in tail ensures r.id != rows[0].id {
      var k :| 0 <= k < |tail| && tail[k] == r;
      assert rows[k + 1] == r;
    }
  }

  /** A first row of another element stays in front. */
  lemma WithoutRowKeepsFirst(rows: seq<Row>, id: nat)
    requires rows != [] && rows[0].id != id
    ensures WithoutRow(rows, id) == [rows[0]] + WithoutRow(rows[1..], id)
  {
  }

  /** Skipping index `i` of `rows` is keeping the first row and skipping index `i - 1` of the rest. */
  lemma SkipAt(rows: seq<Row>, i: nat)
    requires 0 < i < |rows|
    ensures rows[i] == rows[1..][i - 1]
    ensures rows[..i] + rows[i + 1..] == [rows[0]] + (rows[1..][..i - 1] + rows[1..][i..])
  {
    assert rows[..i] == [rows[0]] + rows[1..][..i - 1];
    assert rows[1..][i..] == rows[i + 1..];
  }

  /** The page's state: the variables its handlers share and the parts of the DOM they read back. */
  class App {
    /** The selected database (`activeDb`), `None` before the first selection. */
    var activeDb: Option<string>
    /** The search waiting on the debounce timer (`searchDebounceTimer`). */
    var pending: Option<Search>
    /** Whether the data view has replaced the welcome message. */
    var dataShown: bool
    var view: View
    /** The next unused row element. */
    var nextRowId: nat
    /** Whether the edit modal is visible. */
    var editOpen: bool
    /**
     * Whether the key field of the edit form accepts input. The client only
     * ever enables it (ui/script.js:150) and no method here sets it to
     * false, so the disabled branch of `TypeKey` is never taken.
     */
    var keyEditable: bool
    var formKey: string
    var formValue: string

    /** Every displayed row is a distinct element already created. */
    ghost predicate Valid()
      reads this
    {
      view.Table? ==> DistinctIds(view.rows) && forall r :: r in view.rows ==> r.id < nextRowId
    }

    /** The page as loaded: welcome message, no database, modals hidden, an empty form. */
    constructor ()
      ensures Valid()
      ensures activeDb == None && pending == None && !dataShown && view == Blank
      ensures !editOpen && keyEditable && formKey == "" && formValue == ""
    {
      activeDb := None;
      pending := None;
      dataShown := false;
      view := Blank;
      nextRowId := 0;
      editOpen := false;
      keyEditable := true;
      formKey := "";
      formValue := "";
    }

    /**
     * A click on a database: it becomes the active one, the data view is
     * shown (still holding what it showed before), and its first page is
     * requested with no start and no prefix. A pending search is not
     * cancelled.
     */
    method SelectDb(name: string) returns (req: ListRequest)
      requires Valid()
      modifies this
      ensures Valid()
      ensures activeDb == Some(name) && dataShown
      ensures Asks(req, name, "", "") && req.params == []
      ensures view == old(view) && pending == old(pending) && nextRowId == old(nextRowId)
      ensures editOpen == old(editOpen) && keyEditable == old(keyEditable)
      ensures formKey == old(formKey) && formValue == old(formValue)
    {
      activeDb := Some(name);
      dataShown := true;
      req := ListingUrl(name, "", "");
    }

    /**
     * The response to a listing request for `db` with `prefix`: a page
     * renders fresh rows, the Next button, and a search box whose text is
     * read from `value="…"` written with `escapeHTML`, which keeps the
     * prefix only up to its first `"`; a failed request (`None`) shows the
     * load error.
     */
    method ListingArrived(db: string, prefix: string, resp: Option<KeyPage>)
      requires Valid()
      modifies this
      ensures Valid()
      ensures resp.None? ==> view == LoadError && nextRowId == old(nextRowId)
      ensures resp.Some? ==>
        && view == Table(db, RowsFor(resp.value.keys, old(nextRowId)), resp.value.nextKey, prefix, AttrValue(EscapeText(prefix)))
        && nextRowId == old(nextRowId) + |resp.value.keys|
      ensures activeDb == old(activeDb) && pending == old(pending) && dataShown == old(dataShown)
      ensures editOpen == old(editOpen) && keyEditable == old(keyEditable)
      ensures formKey == old(formKey) && formValue == old(formValue)
    {
      match resp {
        case None =>
          view := LoadError;
        case Some(page) =>
          view := Table(db, RowsFor(page.keys, nextRowId), page.nextKey, prefix, AttrValue(EscapeText(prefix)));
          nextRowId := nextRowId + |page.keys|;
      }
    }

    /**
     * A click on Next: enabled exactly when the page's next key is truthy,
     * even on an empty page, and then asks for the page at that key within
     * the prefix the listing was rendered with (not the search box's text).
     */
    method Next() returns (req: Option<ListRequest>)
      requires view.Table?
      ensures req.Some? <==> Truthy(view.nextKey)
      ensures req.Some? ==> Asks(req.value, view.db, view.nextKey.value, view.prefix)
    {
      if Truthy(view.nextKey) {
        var r := ListingUrl(view.db, view.nextKey.value, view.prefix);
        req := Some(r);
      } else {
        req := None;
      }
    }

    /** Typing in the search box: the pending search is replaced by one for the text just typed. */
    method Input(text: string)
      requires Valid() && view.Table?
      modifies this
      ensures Valid()
      ensures pending == Some(Search(old(view).db, text))
      ensures view == old(view).(searchText := text)
      ensures activeDb == old(activeDb) && dataShown == old(dataShown) && nextRowId == old(nextRowId)
      ensures editOpen == old(editOpen) && keyEditable == old(keyEditable)
      ensures formKey == old(formKey) && formValue == old(formValue)
    {
      pending := Some(Search(view.db, text));
      view := view.(searchText := text);
    }

    /** The debounce timer fires: the pending search asks for the first page with its prefix. */
    method TimerFires() returns (req: Option<ListRequest>)
      requires Valid()
      modifies this
      ensures Valid()
      ensures pending == None
      ensures req.Some? <==> old(pending).Some?
      ensures req.Some? ==> Asks(req.value, old(pending).value.db, "", old(pending).value.prefix)
      ensures activeDb == old(activeDb) && dataShown == old(dataShown) && view == old(view)
      ensures nextRowId == old(nextRowId) && editOpen == old(editOpen) && keyEditable == old(keyEditable)
      ensures formKey == old(formKey) && formValue == old(formValue)
    {
      match pending {
        case None =>
          req := None;
        case Some(search) =>
          var r := ListingUrl(search.db, "", search.prefix);
          req := Some(r);
          pending := None;
      }
    }

    /** Add Key: the form is reset, its key field made editable, and the edit modal shown. */
    method OpenAddKey()
      requires Valid() && view.Table?
      modifies this
      ensures Valid()
      ensures editOpen && keyEditable && formKey == "" && formValue == ""
      ensures activeDb == old(activeDb) && pending == old(pending) && dataShown == old(dataShown)
      ensures view == old(view) && nextRowId == old(nextRowId)
    {
      formKey := "";
      formValue := "";
      keyEditable := true;
      editOpen := true;
    }

    /** Typing in the key field, which a disabled field ignores. */
    method TypeKey(text: string)
      requires Valid()
      modifies this
      ensures Valid()
      ensures formKey == if old(keyEditable) then text else old(formKey)
      ensures activeDb == old(activeDb) && pending == old(pending) && dataShown == old(dataShown)
      ensures view == old(view) && nextRowId == old(nextRowId)
      ensures editOpen == old(editOpen) && keyEditable == old(keyEditable) && formValue == old(formValue)
    {
      if keyEditable {
        formKey := text;
      }
    }

    /** Typing in the value field. */
    method TypeValue(text: string)
      requires Valid()
      modifies this
      ensures Valid()
      ensures formValue == text
      ensures activeDb == old(activeDb) && pending == old(pending) && dataShown == old(dataShown)
      ensures view == old(view) && nextRowId == old(nextRowId)
      ensures editOpen == old(editOpen) && keyEditable == old(keyEditable) && formKey == old(formKey)
    {
      formValue := text;
    }

    /** The close button or a click on the backdrop hides the edit modal. */
    method CloseEditModal()
      requires Valid()
      modifies this
      ensures Valid()
      ensures !editOpen
      ensures activeDb == old(activeDb) && pending == old(pending) && dataShown == old(dataShown)
      ensures view == old(view) && nextRowId == old(nextRowId) && keyEditable == old(keyEditable)
      ensures formKey == old(formKey) && formValue == old(formValue)
    {
      editOpen := false;
    }

    /**
     * Submitting the edit form: nothing without a truthy active database,
     * an alert and no request for an empty key, and otherwise a POST of the
     * form's key and value to the active database.
     */
    method SubmitEdit() returns (s: Submission)
      ensures s == Ignored <==> !Truthy(activeDb)
      ensures s == EmptyKeyAlert <==> Truthy(activeDb) && formKey == ""
      ensures s.Post? ==> s.path == SetPath(activeDb.value) && s.payload == Payload(formKey, formValue)
    {
      if !Truthy(activeDb) {
        return Ignored;
      }
      if formKey == "" {
        return EmptyKeyAlert;
      }
      s := Post(SetPath(activeDb.value), Payload(formKey, formValue));
    }

    /**
     * The answer to the POST. Only 201 hides the edit modal; it then asks
     * for the active database's first page with the search box's current
     * text. With no search box on screen reading it throws, so the modal is
     * hidden but the failure alert is shown instead. Any other status only
     * alerts.
     */
    method SetKeyDone(status: int) returns (refetch: Option<ListRequest>, alerted: bool)
      requires Valid() && activeDb.Some?
      modifies this
      ensures Valid()
      ensures editOpen == (old(editOpen) && status != StatusCreated)
      ensures refetch.Some? <==> status == StatusCreated && old(view).Table?
      ensures alerted <==> refetch.None?
      ensures refetch.Some? ==> Asks(refetch.value, old(activeDb).value, "", old(view).searchText)
      ensures activeDb == old(activeDb) && pending == old(pending) && dataShown == old(dataShown)
      ensures view == old(view) && nextRowId == old(nextRowId) && keyEditable == old(keyEditable)
      ensures formKey == old(formKey) && formValue == old(formValue)
    {
      if status != StatusCreated {
        return None, true;
      }
      editOpen := false;
      if view.Table? {
        var r := ListingUrl(activeDb.value, "", view.searchText);
        refetch, alerted := Some(r), false;
      } else {
        refetch, alerted := None, true;
      }
    }

    /**
     * A click on a row's Delete button: a declined confirm sends nothing,
     * otherwise a DELETE in the database and of the key that the button's
     * `data-db` and `data-key` attributes hold. They were written from the
     * raw name and from `escapeHTML(key)`, so each is cut at its first `"`.
     */
    method AskDelete(row: Row, confirmed: bool) returns (path: Option<string>)
      requires view.Table? && row in view.rows
      ensures path.Some? <==> confirmed
      ensures path.Some? ==> path.value == DeletePath(AttrValue(view.db), AttrValue(EscapeText(row.key)))
    {
      if !confirmed {
        return None;
      }
      path := Some(DeletePath(AttrValue(view.db), AttrValue(EscapeText(row.key))));
    }

    /**
     * The answer to a DELETE sent from row `id`: only 204 removes that row,
     * and only if it is still displayed; any other status alerts.
     */
    method DeleteDone(id: nat, status: int) returns (alerted: bool)
      requires Valid()
      modifies this
      ensures Valid()
      ensures alerted <==> status != StatusNoContent
      ensures view == if status == StatusNoContent && old(view).Table?
        then old(view).(rows := WithoutRow(old(view).rows, id))
        else old(view)
      ensures forall i :: status == StatusNoContent && old(view).Table? && 0 <= i < |old(view).rows| && old(view).rows[i].id == id ==>
        view.rows == old(view).rows[..i] + old(view).rows[i + 1..]
      ensures activeDb == old(activeDb) && pending == old(pending) && dataShown == old(dataShown)
      ensures nextRowId == old(nextRowId) && editOpen == old(editOpen) && keyEditable == old(keyEditable)
      ensures formKey == old(formKey) && formValue == old(formValue)
    {
      if status != StatusNoContent {
        return true;
      }
      if view.Table? {
        forall i | 0 <= i < |view.rows| && view.rows[i].id == id {
          WithoutRowAt(view.rows, i);
        }
        view := view.(rows := WithoutRow(view.rows, id));
      }
      alerted := false;
    }
  }
}
