/**
  Operations on a room's ordered player list (join order) and its host, shared
  by the PartyKit engine and the Socket.IO engine: admission at the end of the
  list, departure with host succession, lookup by connection id or by name,
  rebinding a player to a new connection, and clearing the selections.
 */
module Roster {
  import opened Wrappers
  import opened Types
  import opened JsText

  /** The number of players flagged as host. */
  function HostCount(ps: seq<Player>): nat {
    if ps == [] then 0 else (if ps[0].isHost then 1 else 0) + HostCount(ps[1..])
  }

  /** A non-empty room has exactly one host, and `hostId` is that host's id. */
  predicate HostInvariant(ps: seq<Player>, hostId: string) {
    ps != [] ==> HostCount(ps) == 1 && forall p :: p in ps && p.isHost ==> p.id == hostId
  }

  lemma {:induction false} HostCountAppend(ps: seq<Player>, p: Player)
    ensures HostCount(ps + [p]) == HostCount(ps) + (if p.isHost then 1 else 0)
  {
    if ps != [] {
      assert (ps + [p])[1..] == ps[1..] + [p];
      HostCountAppend(ps[1..], p);
    }
  }

  lemma {:induction false} HostCountZero(ps: seq<Player>)
    ensures HostCount(ps) == 0 <==> forall p :: p in ps ==> !p.isHost
  {
    if ps != [] {
      HostCountZero(ps[1..]);
      assert forall p :: p in ps ==> p == ps[0] || p in ps[1..];
    }
  }

  lemma {:induction false} HostCountUpdate(ps: seq<Player>, i: nat, q: Player)
    requires i < |ps|
    ensures HostCount(ps[i := q]) + (if ps[i].isHost then 1 else 0)
         == HostCount(ps) + (if q.isHost then 1 else 0)
  {
    if i > 0 {
      assert ps[i := q][1..] == ps[1..][i - 1 := q];
      HostCountUpdate(ps[1..], i - 1, q);
    } else {
      assert ps[i := q][1..] == ps[1..];
    }
  }

  // ---------------------------------------------------------------- lookups

  /** `players.find(p => p.id === id)`, as the index of the first match. */
  function IndexOfId(ps: seq<Player>, id: string): (k: Option<nat>)
    ensures k.Some? ==> k.value < |ps| && ps[k.value].id == id
    ensures k.Some? ==> forall j :: 0 <= j < k.value ==> ps[j].id != id
    ensures k.None? <==> forall j :: 0 <= j < |ps| ==> ps[j].id != id
  {
    if ps == [] then None
    else if ps[0].id == id then Some(0)
    else match IndexOfId(ps[1..], id)
      case None => None
      case Some(k) => Some(k + 1)
  }

  /** Two names clash when they agree after `toLowerCase`. */
  predicate SameName(a: string, b: string) {
    ToLower(a) == ToLower(b)
  }

  /** `players.some(p => p.name.toLowerCase() === name.toLowerCase())`. */
  predicate NameTaken(ps: seq<Player>, name: string) {
    exists i :: 0 <= i < |ps| && SameName(ps[i].name, name)
  }

  /** `players.find(p => p.name.toLowerCase() === name.toLowerCase())`, as the index of the first match. */
  function IndexOfName(ps: seq<Player>, name: string): (k: Option<nat>)
    ensures k.Some? ==> k.value < |ps| && SameName(ps[k.value].name, name)
    ensures k.Some? ==> forall j :: 0 <= j < k.value ==> !SameName(ps[j].name, name)
    ensures k.None? <==> !NameTaken(ps, name)
  {
    if ps == [] then None
    else if SameName(ps[0].name, name) then Some(0)
    else match IndexOfName(ps[1..], name)
      case None => None
      case Some(k) => Some(k + 1)
  }

  /** No two players' names agree after `toLowerCase`. */
  predicate UniqueNames(ps: seq<Player>) {
    forall i, j :: 0 <= i < j < |ps| ==> !SameName(ps[i].name, ps[j].name)
  }

  /** Replacing one entry leaves only that entry new. */
  lemma UpdateMembers(ps: seq<Player>, k: nat, q: Player)
    requires k < |ps|
    ensures forall p :: p in ps[k := q] ==> p == q || p in ps
  {
    forall p | p in ps[k := q] ensures p == q || p in ps {
      var i :| 0 <= i < |ps| && ps[k := q][i] == p;
      if i != k {
        assert ps[i] == p;
      }
    }
  }

  /** Name uniqueness depends on the names alone, position by position. */
  lemma SameNamesUnique(ps: seq<Player>, qs: seq<Player>)
    requires |ps| == |qs| && forall i :: 0 <= i < |ps| ==> qs[i].name == ps[i].name
    requires UniqueNames(ps)
    ensures UniqueNames(qs)
  {
  }

  // ---------------------------------------------------------------- admission

  /**
    A joiner goes last with no card; it is host exactly when the room was
    empty, and then `hostId` becomes its id. The pair is the new player list
    and the new `hostId`.
   */
  function Admit(ps: seq<Player>, hostId: string, id: string, name: string): (seq<Player>, string) {
    var p := Player(id, name, None, ps == []);
    (ps + [p], if ps == [] then id else hostId)
  }

  /** Admission keeps one host in a non-empty room and touches nobody else. */
  lemma AdmitKeepsHostInvariant(ps: seq<Player>, hostId: string, id: string, name: string)
    requires HostInvariant(ps, hostId)
    ensures var (ps', hostId') := Admit(ps, hostId, id, name);
      && HostInvariant(ps', hostId')
      && ps' == ps + [Player(id, name, None, ps == [])]
      && (ps == [] ==> hostId' == id)
      && (ps != [] ==> hostId' == hostId)
  {
    var p := Player(id, name, None, ps == []);
    HostCountAppend(ps, p);
    if ps == [] {
      assert forall q :: q in ps + [p] ==> q == p;
    } else {
      assert forall q :: q in ps + [p] ==> q == p || q in ps;
    }
  }

  /** A joiner whose name is free keeps the names unique. */
  lemma AdmitKeepsUniqueNames(ps: seq<Player>, hostId: string, id: string, name: string)
    requires UniqueNames(ps) && !NameTaken(ps, name)
    ensures UniqueNames(Admit(ps, hostId, id, name).0)
  {
    var ps' := Admit(ps, hostId, id, name).0;
    forall i, j | 0 <= i < j < |ps'| ensures !SameName(ps'[i].name, ps'[j].name) {
      if j == |ps| {
        assert ps'[i] == ps[i];
        assert !SameName(ps[i].name, name);
      } else {
        assert ps'[i] == ps[i] && ps'[j] == ps[j];
      }
    }
  }

  // ---------------------------------------------------------------- departure

  /** `players.filter(p => p.id !== id)`. */
  function Without(ps: seq<Player>, id: string): (r: seq<Player>)
    ensures |r| <= |ps|
    ensures forall p :: p in r <==> p in ps && p.id != id
  {
    if ps == [] then []
    else
      var rest := Without(ps[1..], id);
      assert forall p :: p in ps <==> p == ps[0] || p in ps[1..];
      if ps[0].id != id then [ps[0]] + rest else rest
  }

  /** The filter keeps the players' order: a player added at the end stays at the end unless filtered out. */
  lemma {:induction false} WithoutAppend(ps: seq<Player>, p: Player, id: string)
    ensures Without(ps + [p], id) == Without(ps, id) + (if p.id != id then [p] else [])
  {
    if ps == [] {
      assert [] + [p] == [p];
    } else {
      assert (ps + [p])[1..] == ps[1..] + [p];
      WithoutAppend(ps[1..], p, id);
    }
  }

  /** The first player left after the filter is the earliest player with another id. */
  lemma {:induction false} WithoutKeepsEarliest(ps: seq<Player>, id: string)
    requires Without(ps, id) != []
    ensures exists k :: 0 <= k < |ps| && Without(ps, id)[0] == ps[k]
                     && forall j :: 0 <= j < k ==> ps[j].id == id
  {
    if ps[0].id == id {
      WithoutKeepsEarliest(ps[1..], id);
      var k :| 0 <= k < |ps[1..]| && Without(ps[1..], id)[0] == ps[1..][k]
             && forall j :: 0 <= j < k ==> ps[1..][j].id == id;
      assert Without(ps, id)[0] == ps[k + 1];
      assert forall j :: 0 <= j < k + 1 ==> ps[j].id == id by {
        forall j | 0 <= j < k + 1 ensures ps[j].id == id {
          if j > 0 {
            assert ps[j] == ps[1..][j - 1];
          }
        }
      }
    } else {
      assert Without(ps, id)[0] == ps[0];
    }
  }

  /** Filtering keeps the names unique. */
  lemma {:induction false} WithoutKeepsUniqueNames(ps: seq<Player>, id: string)
    requires UniqueNames(ps)
    ensures UniqueNames(Without(ps, id))
  {
    if ps != [] {
      var tail := ps[1..];
      UniqueNamesTail(ps);
      WithoutKeepsUniqueNames(tail, id);
      if ps[0].id != id {
        forall m | 0 <= m < |tail| ensures !SameName(ps[0].name, tail[m].name) {
          assert tail[m] == ps[m + 1];
        }
        UniqueNamesCons(ps[0], Without(tail, id), tail);
      }
    }
  }

  /** Dropping the first player keeps the names unique. */
  lemma UniqueNamesTail(ps: seq<Player>)
    requires ps != [] && UniqueNames(ps)
    ensures UniqueNames(ps[1..])
  {
    var tail := ps[1..];
    forall i, j | 0 <= i < j < |tail| ensures !SameName(tail[i].name, tail[j].name) {
      assert tail[i] == ps[i + 1] && tail[j] == ps[j + 1];
    }
  }

  /** A player whose name clashes with nobody in `pool` can head any unique list drawn from `pool`. */
  lemma UniqueNamesCons(x: Player, rest: seq<Player>, pool: seq<Player>)
    requires UniqueNames(rest)
    requires forall p :: p in rest ==> p in pool
    requires forall m :: 0 <= m < |pool| ==> !SameName(x.name, pool[m].name)
    ensures UniqueNames([x] + rest)
  {
    var r := [x] + rest;
    forall i, j | 0 <= i < j < |r| ensures !SameName(r[i].name, r[j].name) {
      assert r[j] == rest[j - 1] && rest[j - 1] in rest;
      if i > 0 {
        assert r[i] == rest[i - 1];
      }
    }
  }

  /** Filtering out players keeps the hosts that are not filtered out. */
  lemma {:induction false} WithoutKeepsHosts(ps: seq<Player>, id: string)
    requires forall p :: p in ps && p.isHost ==> p.id != id
    ensures HostCount(Without(ps, id)) == HostCount(ps)
  {
    if ps != [] {
      var tail := ps[1..];
      assert forall p :: p in tail ==> p in ps;
      WithoutKeepsHosts(tail, id);
      var rest := Without(tail, id);
      if ps[0].id != id {
        assert ([ps[0]] + rest)[1..] == rest;
      } else {
        assert !ps[0].isHost;
      }
    }
  }

  /** Filtering out the id every host has leaves no host. */
  lemma {:induction false} WithoutDropsHosts(ps: seq<Player>, id: string)
    requires forall p :: p in ps && p.isHost ==> p.id == id
    ensures HostCount(Without(ps, id)) == 0
  {
    if ps != [] {
      var tail := ps[1..];
      assert forall p :: p in tail ==> p in ps;
      WithoutDropsHosts(tail, id);
      var rest := Without(tail, id);
      if ps[0].id != id {
        assert !ps[0].isHost;
        assert ([ps[0]] + rest)[1..] == rest;
      }
    }
  }

  /**
    A player leaves: it is filtered out of the list, and if it was host and
    others remain, the earliest remaining player becomes host and `hostId`
    follows it.
   */
  function Depart(ps: seq<Player>, hostId: string, id: string): (seq<Player>, string) {
    var rest := Without(ps, id);
    if hostId == id && |rest| > 0 then (rest[0 := rest[0].(isHost := true)], rest[0].id)
    else (rest, hostId)
  }

  /** Departure keeps one host in a non-empty room. */
  lemma DepartKeepsHostInvariant(ps: seq<Player>, hostId: string, id: string)
    requires HostInvariant(ps, hostId)
    ensures var (ps', hostId') := Depart(ps, hostId, id); HostInvariant(ps', hostId')
  {
    var rest := Without(ps, id);
    if hostId == id {
      WithoutDropsHosts(ps, id);
      if |rest| > 0 {
        HostCountZero(rest);
        var ps' := rest[0 := rest[0].(isHost := true)];
        HostCountUpdate(rest, 0, rest[0].(isHost := true));
        assert forall p :: p in ps' ==> p == ps'[0] || p in rest[1..] by {
          assert ps' == [ps'[0]] + rest[1..];
        }
        assert forall p :: p in rest[1..] ==> p in rest;
      }
    } else {
      WithoutKeepsHosts(ps, id);
      if rest != [] {
        assert HostCount(ps) == 1 by {
          assert ps != [];
        }
      }
    }
  }

  /** Departure keeps the names unique. */
  lemma DepartKeepsUniqueNames(ps: seq<Player>, hostId: string, id: string)
    requires UniqueNames(ps)
    ensures UniqueNames(Depart(ps, hostId, id).0)
  {
    var rest := Without(ps, id);
    WithoutKeepsUniqueNames(ps, id);
    if hostId == id && |rest| > 0 {
      SameNamesUnique(rest, rest[0 := rest[0].(isHost := true)]);
    }
  }

  /**
    Host succession: a non-host leaving never changes `hostId`; when the host
    leaves and others remain, the earliest remaining player becomes the host.
   */
  lemma DepartSuccession(ps: seq<Player>, hostId: string, id: string)
    requires HostInvariant(ps, hostId)
    ensures var (ps', hostId') := Depart(ps, hostId, id);
      && |ps'| == |Without(ps, id)|
      && (id != hostId ==> ps' == Without(ps, id) && hostId' == hostId)
      && (id == hostId && ps' != [] ==>
            && hostId' == ps'[0].id && ps'[0].isHost && ps'[1..] == Without(ps, id)[1..]
            && exists k :: 0 <= k < |ps| && ps'[0] == ps[k].(isHost := true)
                        && ps[k].id != id && forall j :: 0 <= j < k ==> ps[j].id == id)
  {
    var rest := Without(ps, id);
    if id == hostId && rest != [] {
      WithoutKeepsEarliest(ps, id);
      assert rest[0] in rest;
    }
  }

  // ---------------------------------------------------------------- rebinding and selections

  /** A player reconnects on a new socket: its id changes, and `hostId` moves with it if it is host. */
  function Rebind(ps: seq<Player>, hostId: string, k: nat, newId: string): (seq<Player>, string)
    requires k < |ps|
  {
    (ps[k := ps[k].(id := newId)], if ps[k].isHost then newId else hostId)
  }

  lemma RebindKeepsHostInvariant(ps: seq<Player>, hostId: string, k: nat, newId: string)
    requires HostInvariant(ps, hostId) && k < |ps|
    ensures var (ps', hostId') := Rebind(ps, hostId, k, newId);
      HostInvariant(ps', hostId') && |ps'| == |ps|
  {
    var q := ps[k].(id := newId);
    var ps' := ps[k := q];
    HostCountUpdate(ps, k, q);
    assert forall p :: p in ps' ==> p == q || p in ps by {
      forall p | p in ps' ensures p == q || p in ps {
        var i :| 0 <= i < |ps'| && ps'[i] == p;
        if i != k {
          assert ps[i] == p;
        }
      }
    }
    if ps[k].isHost {
      OnlyHost(ps, k);
      forall p | p in ps' && p.isHost ensures p.id == newId {
        var i :| 0 <= i < |ps'| && ps'[i] == p;
      }
    }
  }

  /** In a room with one host, the player at `k` being host means nobody else is. */
  lemma OnlyHost(ps: seq<Player>, k: nat)
    requires k < |ps| && HostCount(ps) == 1 && ps[k].isHost
    ensures forall i :: 0 <= i < |ps| && i != k ==> !ps[i].isHost
  {
    var ps0 := ps[k := ps[k].(isHost := false)];
    HostCountUpdate(ps, k, ps[k].(isHost := false));
    HostCountZero(ps0);
    forall i | 0 <= i < |ps| && i != k ensures !ps[i].isHost {
      assert ps0[i] in ps0;
    }
  }

  /** `player.selectedCard = card` for the player at index `k`. */
  function SetSelection(ps: seq<Player>, k: nat, card: Option<CardValue>): seq<Player>
    requires k < |ps|
  {
    ps[k := ps[k].(selectedCard := card)]
  }

  lemma SetSelectionKeepsHostInvariant(ps: seq<Player>, hostId: string, k: nat, card: Option<CardValue>)
    requires HostInvariant(ps, hostId) && k < |ps|
    ensures HostInvariant(SetSelection(ps, k, card), hostId)
  {
    var q := ps[k].(selectedCard := card);
    HostCountUpdate(ps, k, q);
    assert forall p :: p in ps[k := q] ==> p == q || p in ps by {
      forall p | p in ps[k := q] ensures p == q || p in ps {
        var i :| 0 <= i < |ps| && ps[k := q][i] == p;
        if i != k {
          assert ps[i] == p;
        }
      }
    }
  }

  /** `players.forEach(p => p.selectedCard = null)`. */
  function ClearSelections(ps: seq<Player>): seq<Player> {
    seq(|ps|, i requires 0 <= i < |ps| => ps[i].(selectedCard := None))
  }

  /** Clearing empties every selection and changes nothing else about any player. */
  lemma {:induction false} ClearSelectionsKeepsRoster(ps: seq<Player>, hostId: string)
    ensures var ps' := ClearSelections(ps);
      && |ps'| == |ps|
      && (forall i :: 0 <= i < |ps| ==> ps'[i].selectedCard.None?)
      && (forall i :: 0 <= i < |ps| ==> ps'[i].id == ps[i].id && ps'[i].name == ps[i].name && ps'[i].isHost == ps[i].isHost)
      && HostCount(ps') == HostCount(ps)
      && (HostInvariant(ps, hostId) ==> HostInvariant(ps', hostId))
  {
    if ps != [] {
      ClearSelectionsKeepsRoster(ps[1..], hostId);
      assert ClearSelections(ps)[1..] == ClearSelections(ps[1..]);
      var ps' := ClearSelections(ps);
      assert forall p :: p in ps' ==> exists i :: 0 <= i < |ps| && p == ps[i].(selectedCard := None);
    }
  }
}
