/** The process-wide registry of MCP server keys: servers register on first use and lose their key when a transport fails. */
module McpRegistry {
  import opened McpNames
  import opened Options
  import opened Utf16

  datatype Event = Registered(server: Text, digest: Text, key: Option<Text>) | Deleted(freed: Text)

  function After(servers: map<Text, Text>, e: Event): map<Text, Text> {
    if e.Deleted? then servers - {e.freed}
    else if e.key.Some? then servers[e.key.value := e.server]
    else servers
  }

  /** The keys held after a run, each with its server. */
  function Servers(history: seq<Event>): map<Text, Text> {
    if history == [] then map[] else After(Servers(history[..|history| - 1]), history[|history| - 1])
  }

  /** What a registration may answer: the key the server holds, else a key no server holds. */
  ghost predicate IsAnswer(servers: map<Text, Text>, e: Event)
    requires e.Registered?
  {
    && IsDigest(e.digest)
    && if e.server in servers.Values then e.key.Some? && e.key.value in servers && servers[e.key.value] == e.server
       else IsUniqueKey(e.server, e.digest, servers.Keys, e.key)
  }

  ghost predicate IsRun(history: seq<Event>) {
    forall j :: 0 <= j < |history| && history[j].Registered? ==> IsAnswer(Servers(history[..j]), history[j])
  }

  class ServerKeys {
    var servers: map<Text, Text>
    ghost var history: seq<Event>

    ghost predicate Valid()
      reads this
    {
      IsRun(history) && servers == Servers(history)
    }

    constructor ()
      ensures Valid() && history == []
    {
      servers, history := map[], [];
    }

    /** A server keeps the key it holds; a server without one gets a key no other server holds. */
    method GetMcpServerKey(server: Text, digest: Text) returns (r: Option<Text>)
      requires Valid() && IsDigest(digest)
      modifies this
      ensures Valid() && history == old(history) + [Registered(server, digest, r)]
      ensures r.Some? ==> IsServerKey(r.value)
      ensures r.Some? && r.value in old(servers) ==> old(servers)[r.value] == server
      ensures r.Some? && r.value !in old(servers) ==> server !in old(servers).Values
      ensures servers == if r.Some? then old(servers)[r.value := server] else old(servers)
      ensures r == None ==> server !in old(servers).Values && DeriveMcpServerKey(server) in servers
    {
      hide IsServerKey, DeriveMcpServerKey, Candidate, IsRun, Servers;
      HeldKeys(history);
      ghost var before := history;
      if existingKey :| existingKey in servers && servers[existingKey] == server {
        r := Some(existingKey);
      } else {
        r := DeriveUniqueMcpServerKey(server, digest, servers.Keys);
        if r.Some? {
          servers := servers[r.value := server];
        }
      }
      history := history + [Registered(server, digest, r)];
      RunSnoc(before, Registered(server, digest, r));
    }

    method Delete(key: Text)
      requires Valid()
      modifies this
      ensures Valid() && history == old(history) + [Deleted(key)] && servers == old(servers) - {key}
    {
      RunSnoc(history, Deleted(key));
      servers := servers - {key};
      history := history + [Deleted(key)];
    }
  }

  lemma RunSnoc(history: seq<Event>, e: Event)
    requires IsRun(history) && (e.Registered? ==> IsAnswer(Servers(history), e))
    ensures IsRun(history + [e])
    ensures Servers(history + [e]) == After(Servers(history), e)
  {
    hide IsAnswer;
    assert (history + [e])[..|history|] == history;
    assert forall j :: 0 <= j < |history| ==> (history + [e])[..j] == history[..j];
  }

  /** Whatever has happened, the keys held are good for names and no server holds two. */
  lemma {:induction false} HeldKeys(history: seq<Event>)
    requires IsRun(history)
    ensures forall key :: key in Servers(history) ==> IsServerKey(key)
    ensures forall key, other ::
      (key in Servers(history) && other in Servers(history) && Servers(history)[key] == Servers(history)[other]) ==> key == other
  {
    hide IsUniqueKey, IsServerKey;
    if history != [] {
      var before, e := history[..|history| - 1], history[|history| - 1];
      assert forall j :: 0 <= j < |before| ==> before[..j] == history[..j];
      HeldKeys(before);
      if e.Registered? && e.key.Some? && e.server !in Servers(before).Values {
        UniqueKeyIsServerKey(e.server, e.digest, Servers(before).Keys, e.key.value);
      }
    }
  }

  lemma UniqueKeyIsServerKey(name: Text, digest: Text, taken: set<Text>, key: Text)
    requires IsDigest(digest) && IsUniqueKey(name, digest, taken, Some(key))
    ensures key !in taken && IsServerKey(key)
  {
    hide IsServerKey;
    var base := DeriveMcpServerKey(name);
    DerivedKeyIsServerKey(name);
    if base in taken {
      var offset: nat :| offset + COLLISION_SUFFIX_LENGTH <= |digest| && key == Candidate(base, digest, offset);
      CandidateIsServerKey(base, digest, offset);
    }
  }

  /** A server holds the key it was given until that key is deleted. */
  lemma {:induction false} KeyStays(history: seq<Event>, i: nat)
    requires IsRun(history) && i < |history| && history[i].Registered? && history[i].key.Some?
    requires forall m :: i < m < |history| ==> history[m] != Deleted(history[i].key.value)
    ensures history[i].key.value in Servers(history) && Servers(history)[history[i].key.value] == history[i].server
    decreases |history|
  {
    hide IsUniqueKey;
    var n := |history| - 1;
    if i < n {
      var before := history[..n];
      assert forall j :: 0 <= j < |before| ==> before[..j] == history[..j];
      assert forall m :: i < m < n ==> before[m] == history[m];
      KeyStays(before, i);
      var e := history[n];
      if e.Registered? && e.key.Some? && e.server !in Servers(before).Values {
        UniqueKeyIsServerKey(e.server, e.digest, Servers(before).Keys, e.key.value);
      }
    }
  }

  /**
   In every run, two answers are the same key exactly when they are for the same server, as long as the first key was
   not deleted in between.
   */
  lemma KeysTellServersApart(history: seq<Event>, i: nat, j: nat)
    requires IsRun(history) && i < j < |history|
    requires history[i].Registered? && history[j].Registered? && history[i].key.Some? && history[j].key.Some?
    requires forall m :: i < m < j ==> history[m] != Deleted(history[i].key.value)
    ensures history[i].key == history[j].key <==> history[i].server == history[j].server
  {
    hide IsUniqueKey;
    var before, e := history[..j], history[j];
    assert forall k :: 0 <= k < |before| ==> before[..k] == history[..k];
    KeyStays(before, i);
    HeldKeys(before);
    assert IsAnswer(Servers(before), e);
    if e.server !in Servers(before).Values {
      UniqueKeyIsServerKey(e.server, e.digest, Servers(before).Keys, e.key.value);
    }
  }

  lemma UniqueKeyIsOne(name: Text, digest: Text, taken: set<Text>, a: Text, b: Text)
    requires IsUniqueKey(name, digest, taken, Some(a)) && IsUniqueKey(name, digest, taken, Some(b))
    ensures a == b
  {
    hide Candidate, DeriveMcpServerKey;
    var base := DeriveMcpServerKey(name);
    if base in taken {
      var i: nat :| i + COLLISION_SUFFIX_LENGTH <= |digest| && a == Candidate(base, digest, i)
        && forall o: nat :: o < i ==> Candidate(base, digest, o) in taken;
      var j: nat :| j + COLLISION_SUFFIX_LENGTH <= |digest| && b == Candidate(base, digest, j)
        && forall o: nat :: o < j ==> Candidate(base, digest, o) in taken;
      assert i == j;
    }
  }

  /**
   In every run, deletions included, a later answer is an earlier key exactly when its server holds that key at that time,
   or when nobody holds it, the server holds no key, and it is the server's first free key.
   */
  lemma SameKeyExactly(history: seq<Event>, i: nat, j: nat)
    requires IsRun(history) && i < j < |history|
    requires history[i].Registered? && history[j].Registered? && history[i].key.Some? && history[j].key.Some?
    ensures var e, key, held := history[j], history[i].key, Servers(history[..j]);
      e.key == key <==>
        if key.value in held then held[key.value] == e.server
        else e.server !in held.Values && IsUniqueKey(e.server, e.digest, held.Keys, key)
  {
    hide IsUniqueKey, IsServerKey;
    var e, key, held := history[j], history[i].key.value, Servers(history[..j]);
    var before := history[..j];
    assert forall k :: 0 <= k < |before| ==> before[..k] == history[..k];
    HeldKeys(before);
    assert IsAnswer(held, e);
    if e.server !in held.Values {
      UniqueKeyIsServerKey(e.server, e.digest, held.Keys, e.key.value);
      if key !in held && IsUniqueKey(e.server, e.digest, held.Keys, Some(key)) {
        UniqueKeyIsOne(e.server, e.digest, held.Keys, e.key.value, key);
      }
    }
  }

  /** A deleted key may go to another server: at once, exactly to one whose name derives the same key. */
  lemma DeletedKeyIsHandedOn(server: Text, other: Text, digest: Text, otherDigest: Text)
    requires server != other && IsDigest(digest) && IsDigest(otherDigest)
    ensures var key := DeriveMcpServerKey(server);
      IsRun([Registered(server, digest, Some(key)), Deleted(key), Registered(other, otherDigest, Some(key))])
      <==> DeriveMcpServerKey(other) == key
  {
    var key := DeriveMcpServerKey(server);
    var first, last := Registered(server, digest, Some(key)), Registered(other, otherDigest, Some(key));
    var history := [first, Deleted(key), last];
    assert history[..0] == [] && history[..1] == [first] && history[..2] == [first, Deleted(key)];
    assert [first][..0] == [] && [first, Deleted(key)][..1] == [first];
    assert Servers([first]) == map[key := server];
    assert Servers(history[..2]) == map[];
  }

  /** The servers "a b" and "a/b" get one key in such a run. */
  lemma TwoServersOneKey(digest: Text, otherDigest: Text)
    requires IsDigest(digest) && IsDigest(otherDigest)
    ensures var spaced, slashed := [97, 32, 98], [97, 47, 98];
      var key := DeriveMcpServerKey(spaced);
      spaced != slashed
      && IsRun([Registered(spaced, digest, Some(key)), Deleted(key), Registered(slashed, otherDigest, Some(key))])
  {
    hide IsRun;
    var spaced: Text, slashed: Text := [97, 32, 98], [97, 47, 98];
    assert Sanitize(spaced) == Sanitize(slashed);
    assert spaced[1] != slashed[1];
    DeletedKeyIsHandedOn(spaced, slashed, digest, otherDigest);
  }
}
