/** The servers and the indexes beside them: secret to id, tag to ids, and the two lists sorted for display. */
module ServerIndex {
  import opened Sequences
  import opened Sorting
  import opened Wrappers

  datatype Server = Server(id: nat, name: string, tag: string, secret: string, displayIndex: int, hideForGuest: bool)

  type Servers = map<nat, Server>
  type Secrets = map<string, nat>
  type Tags = map<string, seq<nat>>

  // ---------- The indexes ----------

  ghost predicate ListedUnderTheirIDs(servers: Servers) {
    forall id :: id in servers ==> servers[id].id == id
  }

  /** SecretToID is the inverse of the non-empty secrets. */
  ghost predicate SecretsIndexed(servers: Servers, secrets: Secrets) {
    && (forall id :: id in servers && servers[id].secret != "" ==>
          servers[id].secret in secrets && secrets[servers[id].secret] == id)
    && (forall k :: k in secrets ==> k != "" && secrets[k] in servers && servers[secrets[k]].secret == k)
  }

  /** Every listed tag lists some servers, each once and only its own; every server with a tag is listed under it. */
  ghost predicate TagsIndexed(servers: Servers, tags: Tags) {
    && (forall t :: t in tags ==> tags[t] != [] && Distinct(tags[t]))
    && (forall t, id :: t in tags && id in tags[t] ==> id in servers && servers[id].tag == t)
    && (forall id :: id in servers && servers[id].tag != "" ==>
          servers[id].tag in tags && id in tags[servers[id].tag])
  }

  ghost predicate UsedByOther(servers: Servers, id: nat, secret: string) {
    exists other :: other in servers && other != id && servers[other].secret == secret
  }

  // ---------- Tag lists ----------

  function IDsOf(tags: Tags, tag: string): seq<nat> {
    if tag in tags then tags[tag] else []
  }

  function Without(ids: seq<nat>, id: nat): seq<nat> {
    if ids == [] then []
    else if ids[0] == id then ids[1..]
    else [ids[0]] + Without(ids[1..], id)
  }

  lemma {:induction false} WithoutAt(ids: seq<nat>, i: nat)
    requires i < |ids| && forall j :: 0 <= j < i ==> ids[j] != ids[i]
    ensures Without(ids, ids[i]) == ids[..i] + ids[i + 1..]
  {
    if i > 0 {
      assert ids[1..][i - 1] == ids[i];
      WithoutAt(ids[1..], i - 1);
      assert ids[1..][..i - 1] == ids[1..i] && ids[1..][i..] == ids[i + 1..];
      assert ids[..i] == [ids[0]] + ids[1..i];
    }
  }

  lemma {:induction false} WithoutMissing(ids: seq<nat>, id: nat)
    requires id !in ids
    ensures Without(ids, id) == ids
  {
    if ids != [] {
      WithoutMissing(ids[1..], id);
    }
  }

  lemma {:induction false} WithoutElements(ids: seq<nat>, id: nat)
    requires Distinct(ids)
    ensures Distinct(Without(ids, id))
    ensures forall x :: x in Without(ids, id) <==> x in ids && x != id
  {
    if ids != [] && ids[0] == id {
      assert ids == [ids[0]] + ids[1..];
    } else if ids != [] {
      WithoutElements(ids[1..], id);
      assert ids == [ids[0]] + ids[1..];
      assert ids[0] !in ids[1..];
      assert forall j :: 0 <= j < |Without(ids[1..], id)| ==> Without(ids[1..], id)[j] in Without(ids[1..], id);
    }
  }

  function Unlisted(tags: Tags, tag: string, id: nat): Tags {
    if tag !in tags || id !in tags[tag] then tags
    else if Without(tags[tag], id) == [] then tags - {tag}
    else tags[tag := Without(tags[tag], id)]
  }

  function Listed(tags: Tags, tag: string, id: nat): Tags {
    tags[tag := IDsOf(tags, tag) + [id]]
  }

  lemma TagsAfterUnlist(servers: Servers, tags: Tags, id: nat)
    requires TagsIndexed(servers, tags) && id in servers
    ensures TagsIndexed(servers - {id}, Unlisted(tags, servers[id].tag, id))
  {
    var tag := servers[id].tag;
    if tag in tags {
      WithoutElements(tags[tag], id);
    }
    assert forall x :: x in servers && x != id && servers[x].tag != "" ==> x in tags[servers[x].tag];
  }

  /** Adding a server keeps the tag lists right if and only if its id is not listed already. */
  lemma TagsAfterAddExactly(servers: Servers, tags: Tags, s: Server)
    requires TagsIndexed(servers, tags)
    ensures TagsIndexed(servers[s.id := s], Listed(tags, s.tag, s.id))
            <==> s.id !in servers || s.id !in IDsOf(tags, servers[s.id].tag)
  {
    if s.id in servers && s.id in IDsOf(tags, servers[s.id].tag) {
      var was, after := servers[s.id].tag, Listed(tags, s.tag, s.id);
      if was == s.tag {
        var i :| 0 <= i < |tags[was]| && tags[was][i] == s.id;
        assert after[was][i] == after[was][|tags[was]|];
      } else {
        assert was in after && s.id in after[was] && servers[s.id := s][s.id].tag != was;
      }
    }
  }

  lemma TagsAfterList(servers: Servers, tags: Tags, s: Server)
    requires TagsIndexed(servers, tags) && s.id !in servers
    ensures TagsIndexed(servers[s.id := s], Listed(tags, s.tag, s.id))
  {
  }

  lemma TagsAfterUntagged(servers: Servers, tags: Tags, s: Server)
    requires TagsIndexed(servers, tags) && s.id !in servers && s.tag == ""
    ensures TagsIndexed(servers[s.id := s], tags)
  {
  }

  /** Moving a server to another tag keeps the tag lists right, whatever else of it changes. */
  lemma TagsAfterMove(servers: Servers, tags: Tags, s: Server)
    requires TagsIndexed(servers, tags) && s.id in servers
    ensures servers[s.id].tag != s.tag ==>
              TagsIndexed(servers[s.id := s], Listed(Unlisted(tags, servers[s.id].tag, s.id), s.tag, s.id))
    ensures servers[s.id].tag == s.tag ==> TagsIndexed(servers[s.id := s], tags)
  {
    if servers[s.id].tag != s.tag {
      TagsAfterUnlist(servers, tags, s.id);
      TagsAfterList(servers - {s.id}, Unlisted(tags, servers[s.id].tag, s.id), s);
      assert (servers - {s.id})[s.id := s] == servers[s.id := s];
    }
  }

  // ---------- Secrets ----------

  function Rebound(secrets: Secrets, oldSecret: string, newSecret: string, id: nat): Secrets {
    if newSecret != oldSecret then secrets[newSecret := id] - {oldSecret} else secrets
  }

  /** An edit keeps SecretToID right if and only if no other server has the new secret. */
  lemma SecretsAfterEditExactly(servers: Servers, secrets: Secrets, s: Server)
    requires SecretsIndexed(servers, secrets) && s.id in servers && (s.secret != "" || servers[s.id].secret == "")
    ensures SecretsIndexed(servers[s.id := s], Rebound(secrets, servers[s.id].secret, s.secret, s.id))
            <==> s.secret == "" || !UsedByOther(servers, s.id, s.secret)
  {
    var after, rebound := servers[s.id := s], Rebound(secrets, servers[s.id].secret, s.secret, s.id);
    if s.secret != "" && UsedByOther(servers, s.id, s.secret) {
      var other :| other in servers && other != s.id && servers[other].secret == s.secret;
      assert secrets[s.secret] == other;
      assert after[other].secret == s.secret && rebound[s.secret] == s.id;
    }
  }

  /** Adding a server keeps SecretToID right if and only if no other server has its secret, and it does not take the
      place of a server with another secret. */
  lemma SecretsAfterAddExactly(servers: Servers, secrets: Secrets, s: Server)
    requires SecretsIndexed(servers, secrets) && s.secret != ""
    ensures SecretsIndexed(servers[s.id := s], secrets[s.secret := s.id])
            <==> !UsedByOther(servers, s.id, s.secret)
                 && (s.id in servers ==> servers[s.id].secret in ["", s.secret])
  {
    var after, added := servers[s.id := s], secrets[s.secret := s.id];
    if UsedByOther(servers, s.id, s.secret) {
      var other :| other in servers && other != s.id && servers[other].secret == s.secret;
      assert after[other].secret == s.secret && added[s.secret] == s.id;
    } else if s.id in servers && servers[s.id].secret !in ["", s.secret] {
      assert servers[s.id].secret in added && added[servers[s.id].secret] == s.id;
    }
  }

  /** What loading establishes whatever the secrets are: every bound secret is a listed server's, and every secret is
      bound. */
  ghost predicate SecretsBound(servers: Servers, secrets: Secrets) {
    && (forall id :: id in servers && servers[id].secret != "" ==> servers[id].secret in secrets)
    && (forall k :: k in secrets ==> k != "" && secrets[k] in servers && servers[secrets[k]].secret == k)
  }

  ghost predicate SecretsShared(servers: Servers) {
    exists id :: id in servers && servers[id].secret != "" && UsedByOther(servers, id, servers[id].secret)
  }

  lemma SecretsBoundAfterLoad(servers: Servers, secrets: Secrets, s: Server)
    requires SecretsBound(servers, secrets) && s.id !in servers
    ensures SecretsBound(servers[s.id := s], if s.secret != "" then secrets[s.secret := s.id] else secrets)
  {
  }

  lemma SecretsAfterLoadExactly(servers: Servers, secrets: Secrets)
    requires SecretsBound(servers, secrets)
    ensures SecretsIndexed(servers, secrets) <==> !SecretsShared(servers)
  {
    if SecretsShared(servers) {
      var id :| id in servers && servers[id].secret != "" && UsedByOther(servers, id, servers[id].secret);
      var other :| other in servers && other != id && servers[other].secret == servers[id].secret;
      assert secrets[servers[id].secret] != id || secrets[servers[other].secret] != other;
    } else {
      forall id | id in servers && servers[id].secret != ""
        ensures secrets[servers[id].secret] == id
      {
        assert !UsedByOther(servers, id, servers[id].secret);
      }
    }
  }

  lemma SecretsAfterDelete(servers: Servers, secrets: Secrets, id: nat)
    requires SecretsIndexed(servers, secrets) && id in servers
    ensures SecretsIndexed(servers - {id}, secrets - {servers[id].secret})
  {
  }

  // ---------- Display order ----------

  /** Higher display indexes first, then lower ids. */
  predicate Before(a: Server, b: Server) {
    if a.displayIndex == b.displayIndex then a.id < b.id else a.displayIndex > b.displayIndex
  }

  function Visible(list: seq<Server>): seq<Server> {
    Select(list, ForGuests)
  }

  predicate ForGuests(s: Server) {
    !s.hideForGuest
  }

  /** The servers in display order; there is only one such list. */
  ghost predicate InDisplayOrder(list: seq<Server>, servers: set<Server>) {
    SortedBy(list, Before) && ToSet(list) == servers
  }

  /** The display order does not depend on the order in which the map was walked. */
  lemma DisplayOrderIsUnique(a: seq<Server>, b: seq<Server>, servers: set<Server>)
    requires InDisplayOrder(a, servers) && InDisplayOrder(b, servers)
    ensures a == b
  {
    OrderIsUnique(a, b, Before);
  }

  lemma {:induction false} VisibleKeepsOrder(list: seq<Server>)
    requires SortedBy(list, Before)
    ensures SortedBy(Visible(list), Before)
  {
    if list != [] {
      var n := |list| - 1;
      VisibleKeepsOrder(list[..n]);
      forall i | 0 <= i < |Visible(list[..n])|
        ensures Before(Visible(list[..n])[i], list[n])
      {
        Selected(list[..n], ForGuests, Visible(list[..n])[i]);
      }
    }
  }

  /** The guests' list, sorted on its own, is the sorted list without the hidden servers. */
  lemma GuestListIsVisible(list: seq<Server>, guests: seq<Server>, servers: set<Server>)
    requires InDisplayOrder(list, servers) && InDisplayOrder(guests, set s | s in servers && !s.hideForGuest)
    ensures guests == Visible(list)
  {
    VisibleKeepsOrder(list);
    forall s: Server
      ensures s in Visible(list) <==> s in guests
    {
      Selected(list, ForGuests, s);
      assert s in list <==> s in ToSet(list);
      assert s in guests <==> s in ToSet(guests);
    }
    OrderIsUnique(guests, Visible(list), Before);
  }

  lemma SortedInDisplayOrder(list: seq<Server>, walked: seq<Server>)
    requires Sorted(list, Before) && multiset(list) == multiset(walked)
    requires forall i, j :: 0 <= i < j < |walked| ==> walked[i].id != walked[j].id
    ensures InDisplayOrder(list, ToSet(walked))
  {
    assert forall x :: x in list <==> x in multiset(list);
    assert forall x :: x in walked <==> x in multiset(walked);
    IDsStayDistinct(walked, list);
  }

  lemma IDsStayDistinct(a: seq<Server>, b: seq<Server>)
    requires multiset(a) == multiset(b) && forall i, j :: 0 <= i < j < |a| ==> a[i].id != a[j].id
    ensures forall i, j :: 0 <= i < j < |b| ==> b[i].id != b[j].id
  {
    PermutationStaysDistinct(a, b);
    forall i, j | 0 <= i < j < |b|
      ensures b[i].id != b[j].id
    {
      assert b[i] in multiset(a) && b[j] in multiset(a);
    }
  }

  // ---------- Many servers at once ----------

  function Loaded(row: Server, generated: Option<string>): Server {
    if row.secret == "" && generated.Some? then row.(secret := generated.value) else row
  }

  function Regrouped(servers: Servers, ids: seq<nat>, group: string): Servers {
    map id | id in servers :: if id in ids then servers[id].(tag := group) else servers[id]
  }

  /** The first n servers have been listed, and have moved to the group. */
  ghost predicate MovedSoFar(now: Servers, first: Servers, ids: seq<nat>, n: nat, group: string) {
    n <= |ids| && now == Regrouped(first, ids[..n], group) && forall i :: 0 <= i < n ==> ids[i] in first
  }

  lemma RegroupOneMore(now: Servers, first: Servers, ids: seq<nat>, i: nat, group: string)
    requires i < |ids| && MovedSoFar(now, first, ids, i, group)
    ensures ids[i] in now <==> ids[i] in first
    ensures ids[i] in now ==> MovedSoFar(now[ids[i] := now[ids[i]].(tag := group)], first, ids, i + 1, group)
  {
    assert ids[..i + 1] == ids[..i] + [ids[i]];
  }

  /** Moving servers to a group changes the tags of those servers and nothing else. */
  lemma OnlyTagsMove(now: Servers, first: Servers, ids: seq<nat>, n: nat, group: string)
    requires MovedSoFar(now, first, ids, n, group)
    ensures now.Keys == first.Keys
    ensures forall id :: id in first ==>
              && now[id].id == first[id].id && now[id].name == first[id].name && now[id].secret == first[id].secret
              && now[id].displayIndex == first[id].displayIndex && now[id].hideForGuest == first[id].hideForGuest
              && now[id].tag == if id in ids[..n] then group else first[id].tag
  {
  }

  lemma DeleteOneMore(servers: Servers, ids: seq<nat>, i: nat)
    requires i < |ids| && Distinct(ids[..i]) && ids[i] in servers - ToSet(ids[..i])
    ensures servers - ToSet(ids[..i]) - {ids[i]} == servers - ToSet(ids[..i + 1])
    ensures Distinct(ids[..i + 1])
  {
    assert ids[..i + 1] == ids[..i] + [ids[i]];
  }

  lemma RepeatedOrMissing(servers: Servers, ids: seq<nat>, i: nat)
    requires i < |ids| && ids[i] !in servers - ToSet(ids[..i])
    ensures ids[i] !in servers || ids[i] in ids[..i]
    ensures !(Distinct(ids) && forall id :: id in ids ==> id in servers)
  {
    if ids[i] in ids[..i] {
      var j :| 0 <= j < i && ids[..i][j] == ids[i];
      assert ids[j] == ids[i];
    }
  }

  // ---------- The running state ----------

  class ServerState {
    var serverList: Servers
    var secretToID: Secrets
    var serverTagToIDList: Tags
    var sortedServerList: seq<Server>
    var sortedServerListForGuest: seq<Server>

    ghost predicate Valid()
      reads this
    {
      && ListedUnderTheirIDs(serverList) && SecretsIndexed(serverList, secretToID)
      && TagsIndexed(serverList, serverTagToIDList)
    }

    /** No servers yet. */
    constructor ()
      ensures Valid() && serverList == map[]
    {
      serverList, secretToID, serverTagToIDList := map[], map[], map[];
      sortedServerList, sortedServerListForGuest := [], [];
    }

    /** A server without a secret gets a generated one, if generating works. Loading leaves the indexes right if and
        only if no two servers share a secret. */
    method LoadServers(rows: seq<Server>, generated: seq<Option<string>>)
      requires |generated| == |rows| && forall i, j :: 0 <= i < j < |rows| ==> rows[i].id != rows[j].id
      requires forall i :: 0 <= i < |rows| ==> generated[i] != Some("")
      modifies this
      ensures forall id :: id in serverList <==> exists i :: 0 <= i < |rows| && rows[i].id == id
      ensures forall i :: 0 <= i < |rows| ==>
                var secret := if rows[i].secret == "" && generated[i].Some? then generated[i].value else rows[i].secret;
                serverList[rows[i].id] == rows[i].(secret := secret)
      ensures Valid() <==> !SecretsShared(serverList)
    {
      serverList, secretToID, serverTagToIDList := map[], map[], map[];
      for i := 0 to |rows|
        invariant forall id :: id in serverList <==> exists j :: 0 <= j < i && rows[j].id == id
        invariant forall j :: 0 <= j < i ==> serverList[rows[j].id] == Loaded(rows[j], generated[j])
        invariant ListedUnderTheirIDs(serverList) && SecretsBound(serverList, secretToID)
        invariant TagsIndexed(serverList, serverTagToIDList)
      {
        LoadServer(rows[i], generated[i]);
      }
      SecretsAfterLoadExactly(serverList, secretToID);
    }

    method LoadServer(row: Server, generated: Option<string>)
      requires ListedUnderTheirIDs(serverList) && SecretsBound(serverList, secretToID)
      requires TagsIndexed(serverList, serverTagToIDList) && row.id !in serverList && generated != Some("")
      modifies this`serverList, this`secretToID, this`serverTagToIDList
      ensures serverList == old(serverList)[row.id := Loaded(row, generated)]
      ensures ListedUnderTheirIDs(serverList) && SecretsBound(serverList, secretToID)
      ensures TagsIndexed(serverList, serverTagToIDList)
    {
      var s := row;
      SecretsBoundAfterLoad(serverList, secretToID, Loaded(row, generated));
      if s.secret != "" {
        secretToID := secretToID[s.secret := s.id];
      } else if generated.Some? {
        s := s.(secret := generated.value);
        secretToID := secretToID[s.secret := s.id];
      }
      if s.tag != "" {
        TagsAfterList(serverList, serverTagToIDList, s);
        serverTagToIDList := Listed(serverTagToIDList, s.tag, s.id);
      } else {
        TagsAfterUntagged(serverList, serverTagToIDList, s);
      }
      serverList := serverList[s.id := s];
    }

    method UnlistTag(tag: string, id: nat)
      modifies this`serverTagToIDList
      ensures serverTagToIDList == Unlisted(old(serverTagToIDList), tag, id)
    {
      var ids := IDsOf(serverTagToIDList, tag);
      var index := 0;
      while index < |ids| && ids[index] != id
        invariant 0 <= index <= |ids|
        invariant forall j :: 0 <= j < index ==> ids[j] != id
      {
        index := index + 1;
      }
      if index < |ids| {
        WithoutAt(ids, index);
        serverTagToIDList := serverTagToIDList[tag := ids[..index] + ids[index + 1..]];
        if |serverTagToIDList[tag]| == 0 {
          serverTagToIDList := serverTagToIDList - {tag};
        }
      }
    }

    /** The add branch of addOrEditServer: the secret is generated, and so is the id unless generating it fails. */
    method AddServer(form: Server, generatedSecret: string, nextID: Option<nat>)
      requires Valid() && generatedSecret != ""
      modifies this
      ensures var s := form.(id := if nextID.Some? then nextID.value else 1, secret := generatedSecret);
              && serverList == old(serverList)[s.id := s] && secretToID == old(secretToID)[s.secret := s.id]
              && (Valid() <==>
                    && !UsedByOther(old(serverList), s.id, s.secret)
                    && (s.id in old(serverList) ==>
                          && old(serverList)[s.id].secret in ["", s.secret]
                          && s.id !in IDsOf(old(serverTagToIDList), old(serverList)[s.id].tag)))
    {
      var s := form.(secret := generatedSecret);
      if nextID.None? {
        s := s.(id := 1);
      } else {
        s := s.(id := nextID.value);
      }
      SecretsAfterAddExactly(serverList, secretToID, s);
      TagsAfterAddExactly(serverList, serverTagToIDList, s);
      secretToID := secretToID[s.secret := s.id];
      serverList := serverList[s.id := s];
      serverTagToIDList := Listed(serverTagToIDList, s.tag, s.id);
    }

    /** The edit branch of addOrEditServer: without a new secret the old one stays. A server that is not listed fails
        the request. */
    method EditServer(form: Server) returns (ok: bool)
      requires Valid()
      modifies this`serverList, this`secretToID, this`serverTagToIDList
      ensures ok <==> form.id in old(serverList)
      ensures !ok ==> serverList == old(serverList) && secretToID == old(secretToID)
                      && serverTagToIDList == old(serverTagToIDList)
      ensures ok ==>
                var s := form.(secret := if form.secret == "" then old(serverList)[form.id].secret else form.secret);
                && serverList == old(serverList)[s.id := s]
                && secretToID == Rebound(old(secretToID), old(serverList)[s.id].secret, s.secret, s.id)
                && TagsIndexed(serverList, serverTagToIDList)
                && (Valid() <==> s.secret == "" || !UsedByOther(old(serverList), s.id, s.secret))
    {
      if form.id !in serverList {
        return false;
      }
      ok := true;
      var s := form;
      if s.secret == "" {
        s := s.(secret := serverList[s.id].secret);
      }
      SecretsAfterEditExactly(serverList, secretToID, s);
      TagsAfterMove(serverList, serverTagToIDList, s);
      if s.secret != serverList[s.id].secret {
        secretToID := secretToID[s.secret := s.id];
        secretToID := secretToID - {serverList[s.id].secret};
      }
      var oldTag, newTag := serverList[s.id].tag, s.tag;
      if newTag != oldTag {
        UnlistTag(oldTag, s.id);
        serverTagToIDList := Listed(serverTagToIDList, newTag, s.id);
      }
      serverList := serverList[s.id := s];
    }

    method RegroupServer(id: nat, group: string) returns (ok: bool)
      requires Valid()
      modifies this`serverList, this`serverTagToIDList
      ensures Valid() && (ok <==> id in old(serverList))
      ensures serverList == if ok then old(serverList)[id := old(serverList)[id].(tag := group)] else old(serverList)
    {
      if id !in serverList {
        return false;
      }
      ok := true;
      var s := serverList[id].(tag := group);
      TagsAfterMove(serverList, serverTagToIDList, s);
      var oldTag := serverList[id].tag;
      if group != oldTag {
        UnlistTag(oldTag, s.id);
        serverTagToIDList := Listed(serverTagToIDList, group, s.id);
      }
      serverList := serverList[s.id := s];
    }

    /** The servers, in any order and possibly repeated, move to the group, up to the first that is not listed; there
        the request fails. Nothing else changes. */
    method BatchUpdateServerGroup(ids: seq<nat>, group: string) returns (done: nat)
      requires Valid()
      modifies this`serverList, this`serverTagToIDList
      ensures Valid() && MovedSoFar(serverList, old(serverList), ids, done, group)
      ensures done < |ids| ==> ids[done] !in old(serverList)
    {
      done := 0;
      while done < |ids|
        invariant Valid() && MovedSoFar(serverList, old(serverList), ids, done, group)
      {
        RegroupOneMore(serverList, old(serverList), ids, done, group);
        var ok := RegroupServer(ids[done], group);
        if !ok {
          return;
        }
        done := done + 1;
      }
    }

    /** A server that is not listed fails the request. */
    method OnServerDelete(id: nat) returns (ok: bool)
      requires Valid()
      modifies this`serverList, this`secretToID, this`serverTagToIDList
      ensures Valid() && (ok <==> id in old(serverList)) && serverList == old(serverList) - {id}
    {
      if id !in serverList {
        return false;
      }
      ok := true;
      SecretsAfterDelete(serverList, secretToID, id);
      TagsAfterUnlist(serverList, serverTagToIDList, id);
      var tag := serverList[id].tag;
      secretToID := secretToID - {serverList[id].secret};
      serverList := serverList - {id};
      UnlistTag(tag, id);
    }

    /** The servers are deleted up to the first that is not listed, or was deleted before; there the request fails. */
    method BatchDeleteServer(ids: seq<nat>) returns (done: nat)
      requires Valid()
      modifies this`serverList, this`secretToID, this`serverTagToIDList
      ensures Valid() && done <= |ids| && serverList == old(serverList) - ToSet(ids[..done])
      ensures done == |ids| <==> Distinct(ids) && forall id :: id in ids ==> id in old(serverList)
      ensures done < |ids| ==> ids[done] !in old(serverList) || ids[done] in ids[..done]
    {
      done := 0;
      while done < |ids|
        invariant done <= |ids|
        invariant Valid() && serverList == old(serverList) - ToSet(ids[..done])
        invariant Distinct(ids[..done]) && forall i :: 0 <= i < done ==> ids[i] in old(serverList)
      {
        var ok := OnServerDelete(ids[done]);
        if !ok {
          RepeatedOrMissing(old(serverList), ids, done);
          return;
        }
        DeleteOneMore(old(serverList), ids, done);
        done := done + 1;
      }
      assert ids[..done] == ids;
    }

    /** Both lists are in display order, and guests see the sorted list without the hidden servers. */
    method ReSortServer()
      requires ListedUnderTheirIDs(serverList)
      modifies this`sortedServerList, this`sortedServerListForGuest
      ensures InDisplayOrder(sortedServerList, serverList.Values)
      ensures forall i, j :: 0 <= i < j < |sortedServerList| ==>
                var a, b := sortedServerList[i], sortedServerList[j];
                a.displayIndex > b.displayIndex || (a.displayIndex == b.displayIndex && a.id < b.id)
      ensures sortedServerListForGuest == Visible(sortedServerList)
    {
      var all, guests := WalkServers(serverList);
      sortedServerList := SortSlice(all, Before);
      SortedInDisplayOrder(sortedServerList, all);
      sortedServerListForGuest := SortSlice(guests, Before);
      SortedInDisplayOrder(sortedServerListForGuest, guests);
      GuestListIsVisible(sortedServerList, sortedServerListForGuest, serverList.Values);
    }
  }

  /** Walking a map: every server once, in any order. */
  method WalkServers(servers: Servers) returns (all: seq<Server>, guests: seq<Server>)
    requires ListedUnderTheirIDs(servers)
    ensures ToSet(all) == servers.Values && ToSet(guests) == set s | s in servers.Values && !s.hideForGuest
    ensures forall i, j :: 0 <= i < j < |all| ==> all[i].id != all[j].id
    ensures forall i, j :: 0 <= i < j < |guests| ==> guests[i].id != guests[j].id
  {
    all, guests := [], [];
    var rest := servers.Keys;
    while rest != {}
      invariant rest <= servers.Keys
      invariant forall s :: s in all <==> s.id in servers && s == servers[s.id] && s.id !in rest
      invariant forall s :: s in guests <==> s in all && !s.hideForGuest
      invariant forall i, j :: 0 <= i < j < |all| ==> all[i].id != all[j].id
      invariant forall i, j :: 0 <= i < j < |guests| ==> guests[i].id != guests[j].id
      decreases |rest|
    {
      var id :| id in rest;
      var s := servers[id];
      all := all + [s];
      if !s.hideForGuest {
        guests := guests + [s];
      }
      rest := rest - {id};
    }
  }
}
