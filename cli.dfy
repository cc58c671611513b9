/**
 * The server's command line: the `-dbs` flag, a comma-separated list of
 * `<name>:<path>` pairs, and the start-up loop that registers each pair with
 * a fresh registry. A fatal log line ends start-up; the model returns it as
 * an outcome instead.
 */
module Cli {
  import opened Wrappers
  import opened GoStrings
  import opened Registry
  import opened Storage

  /** One database named on the command line. */
  datatype Pair = Pair(name: string, path: string)

  /** How start-up ends: serving, refused for a missing flag, or stopped by the first pair that does not register. */
  datatype Startup =
    | Serving
    | MissingFlag
    | RegisterFailed(pair: Pair, err: RegisterError)

  /**
   * One comma-separated piece of the flag: spaces trimmed off both ends, then
   * cut at its first `:` into name and path. A piece without `:` names no
   * database and yields nothing.
   */
  function ParsePiece(piece: string): (r: Option<Pair>)
    ensures r.None? <==> ':' !in TrimSpace(piece)
    ensures r.Some? ==> TrimSpace(piece) == r.value.name + [':'] + r.value.path && ':' !in r.value.name
  {
    var parts := SplitTwo(TrimSpace(piece), ':');
    if |parts| == 2 then Some(Pair(parts[0], parts[1])) else None
  }

  /** What each piece names, piece by piece. */
  function ParseAll(pieces: seq<string>): (opts: seq<Option<Pair>>)
    ensures |opts| == |pieces|
  {
    seq(|pieces|, k requires 0 <= k < |pieces| => ParsePiece(pieces[k]))
  }

  /** The pairs among `opts`, in order. */
  function Collect(opts: seq<Option<Pair>>): (pairs: seq<Pair>)
    ensures |pairs| <= |opts|
  {
    if opts == [] then []
    else
      var last := opts[|opts| - 1];
      Collect(opts[..|opts| - 1]) + (if last.Some? then [last.value] else [])
  }

  /** The pairs collected are exactly the pairs the options hold. */
  lemma {:induction false} CollectMembers(opts: seq<Option<Pair>>)
    ensures forall p :: p in Collect(opts) <==> Some(p) in opts
  {
    if opts != [] {
      var n := |opts| - 1;
      CollectMembers(opts[..n]);
      assert opts == opts[..n] + [opts[n]];
    }
  }

  /** The pairs a `-dbs` value names, in order, skipping the pieces that name none. */
  function ParseDbs(flag: string): seq<Pair>
  {
    Collect(ParseAll(Split(flag, ',')))
  }

  /** The pairs among the first options are the first of the pairs among all of them. */
  lemma {:induction false} CollectPrefix(opts: seq<Option<Pair>>, i: nat)
    requires i <= |opts|
    ensures var done := Collect(opts[..i]);
      |done| <= |Collect(opts)| && Collect(opts)[..|done|] == done
    decreases |opts| - i
  {
    if i < |opts| {
      CollectPrefix(opts, i + 1);
      assert opts[..i + 1][..i] == opts[..i];
    } else {
      assert opts[..i] == opts;
    }
  }

  /** One more option adds its pair, if it holds one, as the next of all the pairs. */
  lemma CollectStep(opts: seq<Option<Pair>>, i: nat, r: nat)
    requires i < |opts|
    requires r <= |Collect(opts)| && Collect(opts[..i]) == Collect(opts)[..r]
    ensures opts[i].None? ==> Collect(opts[..i + 1]) == Collect(opts)[..r]
    ensures opts[i].Some? ==>
      && r < |Collect(opts)|
      && Collect(opts)[r] == opts[i].value
      && Collect(opts[..i + 1]) == Collect(opts)[..r + 1]
  {
    var all := Collect(opts);
    assert opts[..i + 1][..i] == opts[..i];
    CollectPrefix(opts, i + 1);
    if opts[i].Some? {
      assert Collect(opts[..i + 1]) == all[..r] + [opts[i].value];
      assert all[..r + 1] == all[..r] + [all[r]];
    }
  }

  /** When every option holds a pair, the pairs are all of them. */
  lemma {:induction false} CollectAll(opts: seq<Option<Pair>>, pairs: seq<Pair>)
    requires |opts| == |pairs|
    requires forall k :: 0 <= k < |opts| ==> opts[k] == Some(pairs[k])
    ensures Collect(opts) == pairs
    decreases |opts|
  {
    if opts != [] {
      var n := |opts| - 1;
      CollectAll(opts[..n], pairs[..n]);
      assert Collect(opts) == Collect(opts[..n]) + [pairs[n]];
      assert pairs == pairs[..n] + [pairs[n]];
    }
  }

  /** A piece written as `name:path`, which the flag's syntax reads back when the parts allow it. */
  function Render(p: Pair): string
  {
    p.name + [':'] + p.path
  }

  /**
   * The pairs that a flag written by joining `Render`ed pairs with `,` gives
   * back: no `:` or `,` in a name, no `,` in a path, and no space where
   * trimming would cut it off.
   */
  predicate Writable(p: Pair)
  {
    && ':' !in p.name && ',' !in p.name && ',' !in p.path
    && (p.name == "" || !IsSpace(p.name[0]))
    && (p.path == "" || !IsSpace(p.path[|p.path| - 1]))
  }

  /** The flag value that lists `pairs`. */
  function RenderAll(pairs: seq<Pair>): (flag: string)
    requires |pairs| >= 1
  {
    Join(RenderEach(pairs), ',')
  }

  function RenderEach(pairs: seq<Pair>): (pieces: seq<string>)
    ensures |pieces| == |pairs|
    ensures forall k :: 0 <= k < |pairs| ==> pieces[k] == Render(pairs[k])
  {
    if pairs == [] then [] else [Render(pairs[0])] + RenderEach(pairs[1..])
  }

  /** A writable pair survives being written and parsed as one piece. */
  lemma ParsePieceOfRender(p: Pair)
    requires Writable(p)
    ensures ParsePiece(Render(p)) == Some(p)
  {
    var s := Render(p);
    assert s[|p.name|] == ':';
    if |p.name| > 0 {
      assert s[0] == p.name[0];
    }
    if |p.path| > 0 {
      assert s[|s| - 1] == p.path[|p.path| - 1];
    }
    TrimSpaceOfTrimmed(s);
    SplitTwoOfJoined(p.name, ':', p.path);
  }

  /** Parsing the flag that lists writable pairs gives those pairs back, in order. */
  lemma ParseDbsOfRender(pairs: seq<Pair>)
    requires |pairs| >= 1
    requires forall k :: 0 <= k < |pairs| ==> Writable(pairs[k])
    ensures ParseDbs(RenderAll(pairs)) == pairs
  {
    var pieces := RenderEach(pairs);
    forall k | 0 <= k < |pieces|
      ensures ',' !in pieces[k]
    {
      assert pieces[k] == pairs[k].name + [':'] + pairs[k].path;
    }
    SplitOfJoin(pieces, ',');
    var opts := ParseAll(pieces);
    forall k | 0 <= k < |opts|
      ensures opts[k] == Some(pairs[k])
    {
      ParsePieceOfRender(pairs[k]);
    }
    CollectAll(opts, pairs);
  }

  /** The names of `pairs`. */
  function Names(pairs: seq<Pair>): set<string>
  {
    if pairs == [] then {} else Names(pairs[..|pairs| - 1]) + {pairs[|pairs| - 1].name}
  }

  /** No name occurs twice in `pairs`. */
  predicate Distinct(pairs: seq<Pair>)
  {
    pairs == [] || (Distinct(pairs[..|pairs| - 1]) && pairs[|pairs| - 1].name !in Names(pairs[..|pairs| - 1]))
  }

  /** The paths recorded by registering `pairs` in order. */
  function PathsOf(pairs: seq<Pair>): (paths: map<string, string>)
    ensures paths.Keys == Names(pairs)
  {
    if pairs == [] then map[]
    else PathsOf(pairs[..|pairs| - 1])[pairs[|pairs| - 1].name := pairs[|pairs| - 1].path]
  }

  /** Registered under distinct names, every pair's name leads to its own path. */
  lemma {:induction false} PathsOfLookup(pairs: seq<Pair>, k: nat)
    requires Distinct(pairs) && k < |pairs|
    ensures pairs[k].name in PathsOf(pairs) && PathsOf(pairs)[pairs[k].name] == pairs[k].path
    decreases |pairs|
  {
    var init := pairs[..|pairs| - 1];
    if k < |pairs| - 1 {
      assert pairs[k] == init[k];
      PathsOfLookup(init, k);
    }
  }

  lemma SliceSnoc(pairs: seq<Pair>, r: nat)
    requires r < |pairs|
    ensures pairs[..r + 1] == pairs[..r] + [pairs[r]]
  {
  }

  /** Registering one more pair adds its name and path, and keeps the names distinct when the name is new. */
  lemma PathsOfSnoc(done: seq<Pair>, pair: Pair)
    ensures PathsOf(done + [pair]) == PathsOf(done)[pair.name := pair.path]
    ensures Distinct(done + [pair]) <==> Distinct(done) && pair.name !in Names(done)
  {
    assert (done + [pair])[..|done|] == done;
  }

  /**
   * Start-up from the `-dbs` value: an empty value is refused before any
   * registry exists; otherwise a fresh registry gets every pair the value
   * names, in order, until the first refusal, which stops start-up.
   * `registered` counts the pairs registered before the outcome.
   */
  method Configure(flag: string) returns (outcome: Startup, m: Manager?, registered: nat)
    ensures outcome == MissingFlag <==> flag == ""
    ensures flag == "" <==> m == null
    ensures m != null ==> fresh(m) && Started(m, ParseDbs(flag), outcome, registered)
  {
    if flag == "" {
      return MissingFlag, null, 0;
    }
    m := new Manager();
    outcome, registered := RegisterPairs(m, ParseDbs(flag));
  }

  /**
   * How registering `pairs` with `m` ended: the first `registered` pairs are
   * held, all of them when serving; otherwise the next pair was refused.
   */
  ghost predicate Started(m: Manager, pairs: seq<Pair>, outcome: Startup, registered: nat)
    reads m
  {
    && (outcome.Serving? || outcome.RegisterFailed?)
    && registered <= |pairs| && Holds(m, pairs[..registered])
    && (outcome == Serving ==> registered == |pairs|)
    && (outcome.RegisterFailed? ==> Refused(pairs, registered, outcome))
  }

  /** `m` holds exactly the pairs `done`, registered in order under distinct names. */
  ghost predicate Holds(m: Manager, done: seq<Pair>)
    reads m
  {
    m.Valid() && Tracks(m.dbs, m.paths, done)
  }

  /** The registry's maps record exactly the pairs `done`, registered in order under distinct names. */
  ghost predicate Tracks(dbs: map<string, Store>, paths: map<string, string>, done: seq<Pair>)
  {
    && Distinct(done)
    && paths == PathsOf(done)
    && dbs.Keys == paths.Keys
  }

  /** Registering a new name extends the recorded pairs by one. */
  lemma TracksStep(dbs: map<string, Store>, paths: map<string, string>, done: seq<Pair>, pair: Pair, db: Store)
    requires Tracks(dbs, paths, done) && pair.name !in dbs
    ensures Tracks(dbs[pair.name := db], paths[pair.name := pair.path], done + [pair])
  {
    PathsOfSnoc(done, pair);
  }

  /**
   * The registration loop over the pairs the flag names: each is registered
   * with `m` in order, and the first refusal ends the loop.
   */
  method RegisterPairs(m: Manager, pairs: seq<Pair>) returns (outcome: Startup, registered: nat)
    requires Holds(m, [])
    modifies m
    ensures Started(m, pairs, outcome, registered)
  {
    registered := 0;
    while registered < |pairs|
      invariant registered <= |pairs|
      invariant Holds(m, pairs[..registered])
    {
      var err := RegisterNext(m, pairs, registered);
      if err.Some? {
        return RegisterFailed(pairs[registered], err.value), registered;
      }
      registered := registered + 1;
    }
    outcome := Serving;
  }

  /**
   * One turn of the registration loop: registers `pairs[registered]`. On
   * success the registry holds one more pair; on failure it is unchanged and
   * the refusal is explained by the pairs before.
   */
  method RegisterNext(m: Manager, pairs: seq<Pair>, registered: nat) returns (err: Option<RegisterError>)
    requires registered < |pairs| && Holds(m, pairs[..registered])
    modifies m
    ensures err.None? ==> Holds(m, pairs[..registered + 1])
    ensures err.Some? ==>
      && Holds(m, pairs[..registered])
      && Refused(pairs, registered, RegisterFailed(pairs[registered], err.value))
  {
    var pair := pairs[registered];
    SliceSnoc(pairs, registered);
    ghost var done, dbs := pairs[..registered], m.dbs;
    err := m.Register(pair.name, pair.path);
    if err.None? {
      TracksStep(dbs, PathsOf(done), done, pair, m.dbs[pair.name]);
    }
  }

  /**
   * Start-up stopped at `pairs[registered]`: a name already taken by an
   * earlier pair is refused as such, any other refusal is a path that did
   * not open.
   */
  ghost predicate Refused(pairs: seq<Pair>, registered: nat, outcome: Startup)
  {
    && outcome.RegisterFailed?
    && registered < |pairs|
    && outcome.pair == pairs[registered]
    && (outcome.pair.name in Names(pairs[..registered]) ==> outcome.err == AlreadyRegistered(outcome.pair.name))
    && (outcome.pair.name !in Names(pairs[..registered]) ==> outcome.err == OpenFailed(outcome.pair.path))
  }
}
