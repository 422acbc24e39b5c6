/** The configured path between two realms. */
module RealmPath {
  import opened Bytes

  type Realm = bytes

  /** How the configuration's text is trimmed and put in upper case. */
  datatype Text = Text(trim: Realm -> Realm, upper: Realm -> Realm)

  const DIRECT: Realm := [0x2e]
  const MAX_LENGTH: nat := 10

  datatype Result = NotConfigured | Invalid | Path(realms: seq<Realm>)

  function Trimmed(t: Text, values: seq<Realm>): (r: seq<Realm>)
    ensures |r| == |values|
  {
    seq(|values|, i requires 0 <= i < |values| => t.trim(values[i]))
  }

  /** No two realms are equal ignoring case. */
  predicate NoLoop(t: Text, path: seq<Realm>) {
    forall i, j | 0 <= i < j < |path| :: t.upper(path[i]) != t.upper(path[j])
  }

  predicate Named(names: seq<Realm>) { forall i | 0 <= i < |names| :: names[i] != [] && names[i] != DIRECT }

  /** What the path should be: both ends with the intermediate realms between
      them, at most nine of these, all different. */
  function PathOf(t: Text, client: Realm, server: Realm, values: Option<seq<Realm>>): (r: Result) {
    if values.None? then NotConfigured
    else
      var names := Trimmed(t, values.value);
      if names == [] then Invalid
      else if names == [DIRECT] then Path([client, server])
      else if Named(names) && |names| < MAX_LENGTH && NoLoop(t, [client] + names + [server]) then Path([client] + names + [server])
      else Invalid
  }

  /** Every path starts at the client, ends at the server, has at most eleven
      realms and, unless the realms are connected directly, none twice. */
  lemma PathShape(t: Text, client: Realm, server: Realm, values: Option<seq<Realm>>)
    requires PathOf(t, client, server, values).Path?
    ensures var p := PathOf(t, client, server, values).realms;
            && 2 <= |p| <= MAX_LENGTH + 1 && p[0] == client && p[|p| - 1] == server
            && (Trimmed(t, values.value) != [DIRECT] ==> NoLoop(t, p) && forall i | 0 < i < |p| - 1 :: p[i] != [])
  {
    var names := Trimmed(t, values.value);
    var p := PathOf(t, client, server, values).realms;
    if names != [DIRECT] {
      forall i | 0 < i < |p| - 1 ensures p[i] != [] { assert p[i] == names[i - 1]; }
    }
  }

  function Uppers(t: Text, path: seq<Realm>): (r: set<Realm>) {
    if path == [] then {} else Uppers(t, path[..|path| - 1]) + {t.upper(path[|path| - 1])}
  }

  lemma {:induction false} UppersAre(t: Text, path: seq<Realm>, u: Realm)
    ensures u in Uppers(t, path) <==> exists i :: 0 <= i < |path| && u == t.upper(path[i])
  {
    if path != [] {
      var init := path[..|path| - 1];
      UppersAre(t, init, u);
      assert forall i | 0 <= i < |init| :: init[i] == path[i];
      if u in Uppers(t, init) {
        var i :| 0 <= i < |init| && u == t.upper(init[i]);
        assert path[i] == init[i];
      }
    }
  }

  lemma UppersSnoc(t: Text, path: seq<Realm>, x: Realm)
    ensures Uppers(t, path + [x]) == Uppers(t, path) + {t.upper(x)}
  {
    assert (path + [x])[..|path|] == path;
  }

  lemma NoLoopSnoc(t: Text, path: seq<Realm>, x: Realm)
    ensures NoLoop(t, path + [x]) <==> NoLoop(t, path) && t.upper(x) !in Uppers(t, path)
  {
    hide Uppers;
    var longer := path + [x];
    UppersAre(t, path, t.upper(x));
    if NoLoop(t, longer) {
      forall i | 0 <= i < |path| ensures t.upper(path[i]) != t.upper(x) { assert longer[i] == path[i] && longer[|path|] == x; }
      forall i, j | 0 <= i < j < |path| ensures t.upper(path[i]) != t.upper(path[j]) { assert longer[i] == path[i] && longer[j] == path[j]; }
    }
  }

  lemma NoLoopPrefix(t: Text, path: seq<Realm>, k: nat)
    requires k <= |path| && NoLoop(t, path)
    ensures NoLoop(t, path[..k])
  {
  }

  /** RealmPath, given the values configured for the two realms. */
  method FindPath(t: Text, client: Realm, server: Realm, values: Option<seq<Realm>>) returns (r: Result)
    ensures r == PathOf(t, client, server, values)
    ensures r.Path? ==>
              && 2 <= |r.realms| <= MAX_LENGTH + 1 && r.realms[0] == client && r.realms[|r.realms| - 1] == server
              && (Trimmed(t, values.value) != [DIRECT] ==> NoLoop(t, r.realms) && forall i | 0 < i < |r.realms| - 1 :: r.realms[i] != [])
  {
    hide NoLoop, Uppers;
    if PathOf(t, client, server, values).Path? { PathShape(t, client, server, values); }
    if values.None? { return NotConfigured; }
    var vs := values.value;
    if |vs| == 0 { return Invalid; }
    ghost var names := Trimmed(t, vs);
    ghost var whole := [client] + names + [server];
    var path := [client];
    var seen := {t.upper(client)};
    OneRealm(t, client);
    for k := 0 to |vs|
      invariant path == [client] + names[..k] && |path| <= MAX_LENGTH
      invariant Named(names[..k]) && NoLoop(t, path) && seen == Uppers(t, path)
    {
      var value := t.trim(vs[k]);
      assert value == names[k];
      if value == DIRECT {
        if |vs| != 1 { return Invalid; }
        return Path([client, server]);
      }
      if value == [] { return Invalid; }
      if |path| >= MAX_LENGTH { return Invalid; }
      var normalized := t.upper(value);
      NoLoopSnoc(t, path, value);
      UppersSnoc(t, path, value);
      assert whole[..k + 2] == path + [value];
      if normalized in seen {
        if NoLoop(t, whole) { NoLoopPrefix(t, whole, k + 2); }
        return Invalid;
      }
      seen := seen + {normalized};
      path := path + [value];
      assert names[..k + 1] == names[..k] + [value];
    }
    assert names[..|vs|] == names && names[0] != DIRECT;
    NoLoopSnoc(t, path, server);
    assert path + [server] == whole;
    if t.upper(server) in seen { return Invalid; }
    return Path(path + [server]);
  }

  lemma OneRealm(t: Text, x: Realm)
    ensures NoLoop(t, [x]) && Uppers(t, [x]) == {t.upper(x)}
  {
    assert Uppers(t, [x][..0]) == {};
  }
}
