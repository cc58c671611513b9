/**
 * The HTTP API of the server, below the JSON and HTTP plumbing: how a path
 * under `/api/db/` is routed, how a page of keys is collected, and which
 * status each handler answers with.
 */
module Handler {
  import opened Wrappers
  import opened GoStrings
  import opened KeyOrder
  import opened Storage
  import opened Registry

  const StatusOK: int := 200
  const StatusCreated: int := 201
  const StatusNoContent: int := 204
  const StatusBadRequest: int := 400
  const StatusNotFound: int := 404
  const StatusMethodNotAllowed: int := 405
  const StatusInternalServerError: int := 500

  /** The prefix the server's router strips from every database path. */
  const ApiDbPrefix: string := "/api/db/"

  /** The page size used when `limit` is missing, not a number, or not positive. */
  const DefaultLimit: nat := 50

  /**
   * The request method. `MethodOther` carries any verb other than GET, POST
   * and DELETE; those three are always written with their own constructors,
   * so each request method has exactly one representation.
   */
  datatype HttpMethod = MethodGet | MethodPost | MethodDelete | MethodOther(verb: string)

  /** The query parameters of a key listing, each "" when absent (Go's `Query().Get`). */
  datatype Query = Query(start: string, prefix: string, limit: string)

  /** The JSON body of a key listing: `keys` and the optional `next_key`. */
  datatype KeyPage = KeyPage(keys: seq<Key>, nextKey: Option<Key>)

  /** The decoded JSON body of a POST to `/key`. */
  datatype Payload = Payload(key: Key, value: Value)

  datatype Body =
    | Empty
    | ErrorText
    | Listing(page: KeyPage)
    | Entry(key: Key, value: Value)

  datatype Response = Response(status: int, body: Body)

  /** What a request under `/api/db/` is routed to. */
  datatype Dispatch =
    | MissingName
    | ListKeys(db: string)
    | FetchKey(db: string, key: Key)
    | RemoveKey(db: string, key: Key)
    | StoreKey(db: string)
    | BadKeyEscape
    | MethodNotAllowed
    | NoSuchAction

  // ---------------------------------------------------------------------
  // Key listing

  /** The page size a `limit` parameter asks for. */
  function EffectiveLimit(limitParam: string): (limit: nat)
    ensures limit > 0
    ensures Atoi(limitParam).Some? && Atoi(limitParam).value > 0 ==> limit == Atoi(limitParam).value
    ensures Atoi(limitParam).None? || Atoi(limitParam).value <= 0 ==> limit == DefaultLimit
  {
    match Atoi(limitParam)
    case Some(n) => if n <= 0 then DefaultLimit else n
    case None => DefaultLimit
  }

  /** A missing `limit` means 50 keys, and a decimal `limit` means that many. */
  lemma LimitOfDecimal(n: nat)
    requires 0 < n <= MaxInt
    ensures EffectiveLimit("") == DefaultLimit
    ensures EffectiveLimit(Itoa(n)) == n
  {
    AtoiOfItoa(n);
  }

  /**
   * Where the iterator stands before collection: at the first key not below
   * `start` when `start` is given, else at the first key not below `prefix`
   * when that is given, else at the first key.
   */
  function StartIndex(ks: seq<Key>, start: Key, prefix: Key): (i: nat)
    ensures i <= |ks|
    ensures var target := if start != "" then start else prefix;
      && (forall j :: 0 <= j < i ==> Below(ks[j], target))
      && (i < |ks| ==> !Below(ks[i], target))
    ensures start == "" && prefix == "" ==> i == 0
  {
    if start != "" then Seek(ks, start)
    else if prefix != "" then Seek(ks, prefix)
    else 0
  }

  /**
   * Where collection from position `from` stops with room for `room` more
   * keys: at the first position where the room is used up, the keys run out,
   * or (with a prefix) a key does not start with the prefix.
   */
  function StopIndex(ks: seq<Key>, from: nat, prefix: Key, room: nat): (j: nat)
    requires from <= |ks|
    ensures from <= j <= |ks| && j - from <= room
    ensures forall k :: from <= k < j ==> prefix <= ks[k]
    ensures j - from == room || j == |ks| || !(prefix <= ks[j])
    decreases room
  {
    if room == 0 || from == |ks| then from
    else if prefix != "" && !(prefix <= ks[from]) then from
    else StopIndex(ks, from + 1, prefix, room - 1)
  }

  /**
   * The page a listing answers with: the keys from the start position up to
   * where collection stops, and the key the iterator stopped on as
   * `next_key`, left out when there is none (or when it is the empty string,
   * which `omitempty` drops).
   */
  function Page(ks: seq<Key>, q: Query): KeyPage
  {
    var s := StartIndex(ks, q.start, q.prefix);
    var stop := StopIndex(ks, s, q.prefix, EffectiveLimit(q.limit));
    KeyPage(ks[s..stop], if stop < |ks| && ks[stop] != "" then Some(ks[stop]) else None)
  }

  /**
   * A page is the run of stored keys from the start position, no longer than
   * the limit, and `next_key` is the key right after it, when there is one
   * and it is not empty.
   */
  lemma PageShape(ks: seq<Key>, q: Query)
    ensures var page := Page(ks, q);
      var s := StartIndex(ks, q.start, q.prefix);
      && s + |page.keys| <= |ks|
      && page.keys == ks[s..s + |page.keys|]
      && |page.keys| <= EffectiveLimit(q.limit)
    ensures var page := Page(ks, q);
      var stop := StartIndex(ks, q.start, q.prefix) + |page.keys|;
      page.nextKey == if stop < |ks| && ks[stop] != "" then Some(ks[stop]) else None
  {
  }

  /**
   * Every key of a page carries the prefix, and the page ends because it is
   * full, because the keys ran out, or at the first key without the prefix.
   */
  lemma PageStops(ks: seq<Key>, q: Query)
    ensures var page := Page(ks, q);
      forall k :: 0 <= k < |page.keys| ==> q.prefix <= page.keys[k]
    ensures var page := Page(ks, q);
      var stop := StartIndex(ks, q.start, q.prefix) + |page.keys|;
      |page.keys| == EffectiveLimit(q.limit) || stop == |ks| || !(q.prefix <= ks[stop])
  {
  }

  /**
   * The iterator can never stop on the empty key, so `omitempty` never hides
   * a real position: `next_key` is present exactly when keys remain.
   */
  lemma NextKeyPresentWhenKeysRemain(ks: seq<Key>, q: Query)
    requires StrictlySorted(ks)
    ensures var page := Page(ks, q);
      page.nextKey.Some? <==> StartIndex(ks, q.start, q.prefix) + |page.keys| < |ks|
  {
    var page := Page(ks, q);
    var s := StartIndex(ks, q.start, q.prefix);
    var stop := s + |page.keys|;
    PageStops(ks, q);
    if stop < |ks| {
      if stop > s {
        assert Below(ks[stop - 1], ks[stop]);
      } else if q.start != "" {
        assert Below("", q.start);
      } else {
        assert Below("", q.prefix);
      }
    }
  }

  /**
   * The collection loop of a listing: from iterator position `pos`, take
   * keys while there is room for them and they carry the prefix. Returns the
   * keys taken and the position the iterator is left at.
   */
  method TakeKeys(ks: seq<Key>, from: nat, prefix: Key, limit: nat) returns (keys: seq<Key>, pos: nat)
    requires from <= |ks|
    ensures pos == StopIndex(ks, from, prefix, limit)
    ensures keys == ks[from..pos]
  {
    keys, pos := [], from;
    while |keys| < limit && pos < |ks|
      invariant from <= pos <= |ks|
      invariant keys == ks[from..pos] && |keys| == pos - from <= limit
      invariant StopIndex(ks, pos, prefix, limit - |keys|) == StopIndex(ks, from, prefix, limit)
      decreases |ks| - pos
    {
      var key := ks[pos];
      if prefix != "" && !(prefix <= key) {
        break;
      }
      keys := keys + [key];
      pos := pos + 1;
    }
  }

  /**
   * The listing: position the iterator, collect the keys, then report the
   * key the iterator stands on, which `omitempty` drops when it is empty.
   */
  method CollectKeys(ks: seq<Key>, q: Query) returns (page: KeyPage)
    ensures page == Page(ks, q)
  {
    var limit := EffectiveLimit(q.limit);
    var pos: nat;
    if q.start != "" {
      pos := Seek(ks, q.start);
    } else if q.prefix != "" {
      pos := Seek(ks, q.prefix);
    } else {
      pos := 0;
    }
    var keys;
    keys, pos := TakeKeys(ks, pos, q.prefix, limit);
    var nextKey: Key := "";
    if pos < |ks| {
      nextKey := ks[pos];
    }
    page := KeyPage(keys, if nextKey == "" then None else Some(nextKey));
  }

  /** `GET keys`: 404 for an unknown database, otherwise 200 and the page. */
  method HandleGetKeys(m: Manager, name: string, q: Query) returns (resp: Response)
    ensures name !in m.dbs ==> resp == Response(StatusNotFound, ErrorText)
    ensures name in m.dbs ==> resp == Response(StatusOK, Listing(Page(m.dbs[name].keys, q)))
  {
    var db := m.Get(name);
    if db.None? {
      return Response(StatusNotFound, ErrorText);
    }
    var page := CollectKeys(db.value.keys, q);
    resp := Response(StatusOK, Listing(page));
  }

  // ---------------------------------------------------------------------
  // Single keys. `ioFails` stands for a storage error other than "not found",
  // which the model leaves to the caller's choice.

  /** `GET key/<k>`: the stored value, 404 for an unknown database or key, 500 on a storage error. */
  method HandleGetKey(m: Manager, name: string, key: Key, ioFails: bool) returns (resp: Response)
    ensures resp.status in {StatusOK, StatusNotFound, StatusInternalServerError}
    ensures resp.status == StatusOK <==> name in m.dbs && !ioFails && key in m.dbs[name].values
    ensures resp.status == StatusOK ==> resp.body == Entry(key, m.dbs[name].values[key])
    ensures resp.status == StatusInternalServerError <==> name in m.dbs && ioFails
  {
    var db := m.Get(name);
    if db.None? {
      return Response(StatusNotFound, ErrorText);
    }
    if ioFails {
      return Response(StatusInternalServerError, ErrorText);
    }
    if key !in db.value.values {
      return Response(StatusNotFound, ErrorText);
    }
    resp := Response(StatusOK, Entry(key, db.value.values[key]));
  }

  /** `DELETE key/<k>`: 204 whether or not the key was stored, 404 for an unknown database, 500 on a storage error. */
  method HandleDeleteKey(m: Manager, name: string, key: Key, ioFails: bool) returns (resp: Response)
    ensures name !in m.dbs ==> resp.status == StatusNotFound
    ensures name in m.dbs ==> resp.status == if ioFails then StatusInternalServerError else StatusNoContent
  {
    var db := m.Get(name);
    if db.None? {
      return Response(StatusNotFound, ErrorText);
    }
    if ioFails {
      return Response(StatusInternalServerError, ErrorText);
    }
    resp := Response(StatusNoContent, Empty);
  }

  /**
   * `POST key`: 201 once the pair is written, any key (the empty one too);
   * 404 for an unknown database, checked before the body; 400 for a body
   * that is not JSON; 500 on a storage error.
   */
  method HandleSetKey(m: Manager, name: string, payload: Option<Payload>, ioFails: bool) returns (resp: Response)
    ensures name !in m.dbs ==> resp.status == StatusNotFound
    ensures name in m.dbs && payload.None? ==> resp.status == StatusBadRequest
    ensures name in m.dbs && payload.Some? ==>
      resp.status == if ioFails then StatusInternalServerError else StatusCreated
  {
    var db := m.Get(name);
    if db.None? {
      return Response(StatusNotFound, ErrorText);
    }
    if payload.None? {
      return Response(StatusBadRequest, ErrorText);
    }
    if ioFails {
      return Response(StatusInternalServerError, ErrorText);
    }
    resp := Response(StatusCreated, Empty);
  }

  // ---------------------------------------------------------------------
  // Routing

  /** The three parts a path under `/api/db/` is cut into. */
  datatype Target = Target(name: string, action: string, rest: string)

  /**
   * The path with `/api/db/` trimmed off, cut at its first `/` into the
   * database name and the remainder, and the remainder at its first `/` into
   * the action and the rest; a part that is not there is empty.
   */
  function ParseTarget(urlPath: string): Target
  {
    var parts := SplitTwo(TrimPrefix(urlPath, ApiDbPrefix), '/');
    var actionParts := if |parts| > 1 then SplitTwo(parts[1], '/') else [""];
    Target(parts[0], actionParts[0], if |actionParts| > 1 then actionParts[1] else "")
  }

  /**
   * The router for `/api/db/`. `unescape` is `url.PathUnescape`, which may
   * fail.
   */
  function Route(urlPath: string, verb: HttpMethod, unescape: string -> Option<string>): Dispatch
  {
    RouteTarget(ParseTarget(urlPath), verb, unescape)
  }

  /** What a path taken apart into `t` is routed to. */
  function RouteTarget(t: Target, verb: HttpMethod, unescape: string -> Option<string>): Dispatch
  {
    if t.name == "" then MissingName
    else if t.action == "keys" then ListKeys(t.name)
    else if t.action == "key" then
      match unescape(t.rest)
      case None => BadKeyEscape
      case Some(key) =>
        match verb
        case MethodGet => FetchKey(t.name, key)
        case MethodDelete => RemoveKey(t.name, key)
        case MethodPost => StoreKey(t.name)
        case MethodOther(_) => MethodNotAllowed
    else NoSuchAction
  }

  /** A well-formed database name: not empty, and no `/` in it. */
  predicate IsDbName(name: string)
  {
    name != "" && '/' !in name
  }

  /** The name is missing exactly when the path after `/api/db/` is empty or starts with `/`. */
  lemma RouteMissingName(urlPath: string, verb: HttpMethod, unescape: string -> Option<string>)
    ensures var rest := TrimPrefix(urlPath, ApiDbPrefix);
      Route(urlPath, verb, unescape) == MissingName <==> rest == "" || rest[0] == '/'
  {
    var rest := TrimPrefix(urlPath, ApiDbPrefix);
    var t := ParseTarget(urlPath);
    assert t.name == "" <==> rest == "" || rest[0] == '/' by {
      assert t.name == SplitTwo(rest, '/')[0];
      NameEmptyIffSlashFirst(rest);
    }
    MissingNameOnly(t, verb, unescape);
  }

  /** Only an empty name routes to `MissingName`. */
  lemma MissingNameOnly(t: Target, verb: HttpMethod, unescape: string -> Option<string>)
    ensures RouteTarget(t, verb, unescape) == MissingName <==> t.name == ""
  {
  }

  /** The text before the first `/` is empty exactly when the text is empty or starts with `/`. */
  lemma NameEmptyIffSlashFirst(rest: string)
    ensures SplitTwo(rest, '/')[0] == "" <==> rest == "" || rest[0] == '/'
  {
    var i := IndexOf(rest, '/');
    assert i == 0 <==> rest == "" || rest[0] == '/';
  }

  /** How `/api/db/<name>/<action><tail>` is taken apart, when `tail` is empty or starts a further part. */
  lemma ParseTargetOf(name: string, action: string, tail: string)
    requires IsDbName(name) && '/' !in action
    requires tail == "" || tail[0] == '/'
    ensures ParseTarget(ApiDbPrefix + name + "/" + action + tail)
         == Target(name, action, if tail == "" then "" else tail[1..])
  {
    var after := action + tail;
    var rest := name + "/" + after;
    assert ApiDbPrefix + name + "/" + action + tail == ApiDbPrefix + rest by {
      GroupAfterFirst(ApiDbPrefix, name, "/", action, tail);
    }
    TrimPrefixOf(ApiDbPrefix, rest);
    SplitTwoOfJoined(name, '/', after);
    if tail != "" {
      assert after == action + ['/'] + tail[1..] by {
        assert tail == ['/'] + tail[1..];
        GroupLeft(action, ['/'], tail[1..]);
      }
      SplitTwoOfJoined(action, '/', tail[1..]);
    } else {
      assert after == action;
    }
  }

  /** Trimming a prefix off a string that starts with it leaves the rest. */
  lemma TrimPrefixOf(prefix: string, rest: string)
    ensures TrimPrefix(prefix + rest, prefix) == rest
  {
    assert prefix <= prefix + rest;
  }

  /** Regrouping only: five pieces with the four after the first grouped together. */
  lemma GroupAfterFirst(a: string, b: string, c: string, d: string, e: string)
    ensures a + b + c + d + e == a + (b + c + (d + e))
  {
  }

  /** Regrouping only: appending two pieces is appending what they make together. */
  lemma UngroupPair(x: string, a: string, b: string, ab: string)
    requires a + b == ab
    ensures x + ab == x + a + b
  {
  }

  /** Regrouping only: appending three pieces and then `r` is appending what the three make together and then `r`. */
  lemma UngroupTriple(x: string, a: string, b: string, c: string, abc: string, r: string)
    requires a + b + c == abc
    ensures x + abc + r == x + a + b + (c + r)
  {
    assert x + a + b + (c + r) == x + (a + b + c) + r;
  }

  /** Regrouping only: two trailing pieces grouped to the left. */
  lemma GroupLeft(a: string, b: string, c: string)
    ensures a + (b + c) == a + b + c
  {
  }

  /** `<name>/keys`, with or without anything after a further `/`, lists keys whatever the method. */
  lemma RouteKeys(name: string, tail: string, verb: HttpMethod, unescape: string -> Option<string>)
    requires IsDbName(name)
    requires tail == "" || tail[0] == '/'
    ensures Route(ApiDbPrefix + name + "/keys" + tail, verb, unescape) == ListKeys(name)
  {
    assert ApiDbPrefix + name + "/keys" + tail == ApiDbPrefix + name + "/" + "keys" + tail;
    ParseTargetOf(name, "keys", tail);
  }

  /**
   * `<name>/key/<rest>`: a `rest` that does not unescape is refused before
   * the method is looked at; otherwise GET, DELETE and POST go to their
   * handlers and every other method is not allowed. `rest` may itself hold
   * `/`.
   */
  lemma RouteKey(name: string, rest: string, verb: HttpMethod, unescape: string -> Option<string>)
    requires IsDbName(name)
    ensures var d := Route(ApiDbPrefix + name + "/key/" + rest, verb, unescape);
      && (unescape(rest).None? ==> d == BadKeyEscape)
      && (unescape(rest).Some? && verb == MethodGet ==> d == FetchKey(name, unescape(rest).value))
      && (unescape(rest).Some? && verb == MethodDelete ==> d == RemoveKey(name, unescape(rest).value))
      && (unescape(rest).Some? && verb == MethodPost ==> d == StoreKey(name))
      && (unescape(rest).Some? && verb.MethodOther? ==> d == MethodNotAllowed)
  {
    var path := ApiDbPrefix + name + "/key/" + rest;
    assert ParseTarget(path) == Target(name, "key", rest) by {
      assert path == ApiDbPrefix + name + "/" + "key" + ("/" + rest) by {
        UngroupTriple(ApiDbPrefix + name, "/", "key", "/", "/key/", rest);
      }
      ParseTargetOf(name, "key", "/" + rest);
      assert ("/" + rest)[1..] == rest;
    }
    KeyAction(Target(name, "key", rest), verb, unescape);
  }

  /**
   * `<name>/key` with nothing after it is a key route with an empty rest:
   * POST (the path the client posts to) stores, GET fetches and DELETE
   * removes the empty key, and every other method is not allowed.
   */
  lemma RouteKeyBare(name: string, verb: HttpMethod, unescape: string -> Option<string>)
    requires IsDbName(name)
    requires unescape("") == Some("")
    ensures verb == MethodGet ==> Route(ApiDbPrefix + name + "/key", verb, unescape) == FetchKey(name, "")
    ensures verb == MethodDelete ==> Route(ApiDbPrefix + name + "/key", verb, unescape) == RemoveKey(name, "")
    ensures verb == MethodPost ==> Route(ApiDbPrefix + name + "/key", verb, unescape) == StoreKey(name)
    ensures verb.MethodOther? ==> Route(ApiDbPrefix + name + "/key", verb, unescape) == MethodNotAllowed
  {
    var path := ApiDbPrefix + name + "/key";
    assert ParseTarget(path) == Target(name, "key", "") by {
      assert path == ApiDbPrefix + name + "/" + "key" + "" by {
        UngroupPair(ApiDbPrefix + name, "/", "key", "/key");
        assert ApiDbPrefix + name + "/" + "key" + "" == ApiDbPrefix + name + "/" + "key";
      }
      ParseTargetOf(name, "key", "");
    }
    KeyAction(Target(name, "key", ""), verb, unescape);
  }

  /** Where a target with a name and the action `key` is routed. */
  lemma KeyAction(t: Target, verb: HttpMethod, unescape: string -> Option<string>)
    requires t.name != "" && t.action == "key"
    ensures var d := RouteTarget(t, verb, unescape);
      && (unescape(t.rest).None? ==> d == BadKeyEscape)
      && (unescape(t.rest).Some? && verb == MethodGet ==> d == FetchKey(t.name, unescape(t.rest).value))
      && (unescape(t.rest).Some? && verb == MethodDelete ==> d == RemoveKey(t.name, unescape(t.rest).value))
      && (unescape(t.rest).Some? && verb == MethodPost ==> d == StoreKey(t.name))
      && (unescape(t.rest).Some? && verb.MethodOther? ==> d == MethodNotAllowed)
  {
    assert t.action != "keys";
  }

  /** Any other action, including none at all, is not found. */
  lemma RouteOtherAction(name: string, action: string, tail: string, verb: HttpMethod, unescape: string -> Option<string>)
    requires IsDbName(name)
    requires '/' !in action && action != "keys" && action != "key"
    requires tail == "" || tail[0] == '/'
    ensures Route(ApiDbPrefix + name + "/" + action + tail, verb, unescape) == NoSuchAction
    ensures Route(ApiDbPrefix + name, verb, unescape) == NoSuchAction
  {
    ParseTargetOf(name, action, tail);
    var path := ApiDbPrefix + name;
    assert ApiDbPrefix <= path;
    assert TrimPrefix(path, ApiDbPrefix) == name;
  }

  /** A request under `/api/db/`, reduced to what the handlers read. */
  datatype Request = Request(path: string, verb: HttpMethod, query: Query, body: Option<Payload>)

  /**
   * `handleDB`: route the request and run its handler. A malformed path
   * answers 400, an unknown action 404 and a wrong method 405; an unknown
   * database answers 404 from every handler, and a storage error 500.
   */
  method HandleDB(m: Manager, req: Request, unescape: string -> Option<string>, ioFails: bool)
    returns (resp: Response)
    ensures var d := Route(req.path, req.verb, unescape);
      && (d == MissingName || d == BadKeyEscape ==> resp.status == StatusBadRequest)
      && (d == MethodNotAllowed ==> resp.status == StatusMethodNotAllowed)
      && (d == NoSuchAction ==> resp.status == StatusNotFound)
      && (d.ListKeys? && d.db in m.dbs ==> resp == Response(StatusOK, Listing(Page(m.dbs[d.db].keys, req.query))))
      && (d.FetchKey? && d.db in m.dbs && !ioFails && d.key in m.dbs[d.db].values ==>
            resp == Response(StatusOK, Entry(d.key, m.dbs[d.db].values[d.key])))
      && (d.FetchKey? && d.db in m.dbs && !ioFails && d.key !in m.dbs[d.db].values ==> resp.status == StatusNotFound)
      && (d.FetchKey? && d.db in m.dbs && ioFails ==> resp.status == StatusInternalServerError)
      && (d.RemoveKey? && d.db in m.dbs ==>
            resp.status == if ioFails then StatusInternalServerError else StatusNoContent)
      && (d.StoreKey? && d.db in m.dbs && req.body.Some? ==>
            resp.status == if ioFails then StatusInternalServerError else StatusCreated)
      && (d.StoreKey? && d.db in m.dbs && req.body.None? ==> resp.status == StatusBadRequest)
      && ((d.ListKeys? || d.FetchKey? || d.RemoveKey? || d.StoreKey?) && d.db !in m.dbs ==>
            resp.status == StatusNotFound)
  {
    match Route(req.path, req.verb, unescape)
    case MissingName =>
      resp := Response(StatusBadRequest, ErrorText);
    case ListKeys(name) =>
      resp := HandleGetKeys(m, name, req.query);
    case FetchKey(name, key) =>
      resp := HandleGetKey(m, name, key, ioFails);
    case RemoveKey(name, key) =>
      resp := HandleDeleteKey(m, name, key, ioFails);
    case StoreKey(name) =>
      resp := HandleSetKey(m, name, req.body, ioFails);
    case BadKeyEscape =>
      resp := Response(StatusBadRequest, ErrorText);
    case MethodNotAllowed =>
      resp := Response(StatusMethodNotAllowed, ErrorText);
    case NoSuchAction =>
      resp := Response(StatusNotFound, ErrorText);
  }
}
