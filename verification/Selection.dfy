/**
 SubscriptionSelection.ets: finding a node again after a subscription was refreshed.
 `lower` is String.prototype.toLowerCase; the identities are given with the nodes.
 */
module Selection {
  import opened JsText
  import opened JsTrim

  type Lower = Text -> Text

  datatype Identity = Identity(remarks: Text, server: Text, serverPort: Text, password: Text)

  datatype Node = Node(id: Text, identity: Identity)

  /** Blank texts match nothing, not even each other. */
  predicate SameText(lower: Lower, left: Text, right: Text) {
    |Trim(left)| > 0 && |Trim(right)| > 0 && lower(Trim(left)) == lower(Trim(right))
  }

  // ---- What a match is worth

  predicate SameServer(lower: Lower, a: Identity, b: Identity) { SameText(lower, a.server, b.server) }

  predicate SamePort(lower: Lower, a: Identity, b: Identity) {
    SameServer(lower, a, b) && SameText(lower, a.serverPort, b.serverPort)
  }

  predicate SamePassword(lower: Lower, a: Identity, b: Identity) {
    SamePort(lower, a, b) && SameText(lower, a.password, b.password)
  }

  predicate SameRemarks(lower: Lower, a: Identity, b: Identity) { SameText(lower, a.remarks, b.remarks) }

  const NO_MATCH: nat := 5

  /** 0 everything, 1 the remarks, 2 server, port and password, 3 server and port, 4 the server, 5 nothing. */
  function Tier(lower: Lower, a: Identity, target: Identity): (tier: nat)
    ensures tier <= NO_MATCH
  {
    if SameRemarks(lower, a, target) then (if SamePassword(lower, a, target) then 0 else 1)
    else if SamePassword(lower, a, target) then 2
    else if SamePort(lower, a, target) then 3
    else if SameServer(lower, a, target) then 4
    else NO_MATCH
  }

  /** Both texts have something to compare, and it is the same up to case and the space around it. */
  predicate Alike(lower: Lower, left: Text, right: Text) {
    HasInk(left) && HasInk(right) && lower(Trim(left)) == lower(Trim(right))
  }

  /** What the tiers mean for the four texts of two identities. */
  lemma TierExactly(lower: Lower, a: Identity, b: Identity)
    ensures var remarks, server, port, password :=
        Alike(lower, a.remarks, b.remarks), Alike(lower, a.server, b.server),
        Alike(lower, a.serverPort, b.serverPort), Alike(lower, a.password, b.password);
      Tier(lower, a, b) ==
        if remarks && server && port && password then 0
        else if remarks then 1
        else if server && port && password then 2
        else if server && port then 3
        else if server then 4
        else 5
  {
    SameIsAlike(lower, a.remarks, b.remarks);
    SameIsAlike(lower, a.server, b.server);
    SameIsAlike(lower, a.serverPort, b.serverPort);
    SameIsAlike(lower, a.password, b.password);
    hide SameText, Alike;
  }

  lemma SameIsAlike(lower: Lower, left: Text, right: Text)
    ensures SameText(lower, left, right) <==> Alike(lower, left, right)
  {
    TrimKeepsInk(left);
    TrimKeepsInk(right);
    hide Trim, HasInk;
  }

  /** Node i has the least tier, and is the first with it. */
  predicate IsBest(lower: Lower, nodes: seq<Node>, target: Identity, i: nat)
    requires i < |nodes|
  {
    && Tier(lower, nodes[i].identity, target) < NO_MATCH
    && (forall j | 0 <= j < |nodes| ::
          Tier(lower, nodes[i].identity, target) <= Tier(lower, nodes[j].identity, target))
    && (forall j | 0 <= j < i ::
          Tier(lower, nodes[i].identity, target) < Tier(lower, nodes[j].identity, target))
  }

  method FindByPredicate(nodes: seq<Node>, wanted: Identity -> bool) returns (found: int)
    ensures found == -1 || 0 <= found < |nodes|
    ensures found >= 0 ==> wanted(nodes[found].identity)
    ensures forall j | 0 <= j < (if found >= 0 then found else |nodes|) :: !wanted(nodes[j].identity)
  {
    for index := 0 to |nodes|
      invariant forall j | 0 <= j < index :: !wanted(nodes[j].identity)
    {
      if wanted(nodes[index].identity) {
        return index;
      }
    }
    return -1;
  }

  /** The five searches find the lexicographic minimum of (tier, index), or nothing if nothing matches. */
  method FindMatchedSubscriptionNode(lower: Lower, nodes: seq<Node>, target: Identity) returns (found: int)
    ensures found == -1 || 0 <= found < |nodes|
    ensures found >= 0 ==> IsBest(lower, nodes, target, found)
    ensures found >= 0 ==> forall i | 0 <= i < |nodes| && IsBest(lower, nodes, target, i) :: i == found
    ensures found == -1 <==> forall j | 0 <= j < |nodes| :: Tier(lower, nodes[j].identity, target) == NO_MATCH
  {
    hide SameText;
    found := FindByPredicate(nodes, identity => SameRemarks(lower, identity, target) && SamePassword(lower, identity, target));
    if found >= 0 {
      return;
    }
    found := FindByPredicate(nodes, identity => SameRemarks(lower, identity, target));
    if found >= 0 {
      return;
    }
    found := FindByPredicate(nodes, identity => SamePassword(lower, identity, target));
    if found >= 0 {
      return;
    }
    found := FindByPredicate(nodes, identity => SamePort(lower, identity, target));
    if found >= 0 {
      return;
    }
    found := FindByPredicate(nodes, identity => SameServer(lower, identity, target));
  }

  // ---- Keeping the selection

  predicate HasId(nodes: seq<Node>, id: Text) { id != [] && exists i | 0 <= i < |nodes| :: nodes[i].id == id }

  method FindNodeById(nodes: seq<Node>, id: Text) returns (found: int)
    ensures found == -1 || 0 <= found < |nodes|
    ensures found >= 0 ==> id != [] && nodes[found].id == id && forall j | 0 <= j < found :: nodes[j].id != id
    ensures found == -1 <==> !HasId(nodes, id)
  {
    if id == [] {
      return -1;
    }
    for index := 0 to |nodes|
      invariant forall j | 0 <= j < index :: nodes[j].id != id
    {
      if nodes[index].id == id {
        return index;
      }
    }
    return -1;
  }

  predicate IsFirstWith(nodes: seq<Node>, id: Text, i: nat) {
    i < |nodes| && nodes[i].id == id && forall j | 0 <= j < i :: nodes[j].id != id
  }

  predicate Matches(lower: Lower, nodes: seq<Node>, target: Identity) {
    exists i | 0 <= i < |nodes| :: Tier(lower, nodes[i].identity, target) < NO_MATCH
  }

  /** The id of the best match, or of the first node when nothing matches. */
  predicate Replaces(lower: Lower, nodes: seq<Node>, target: Identity, id: Text)
    requires nodes != []
  {
    if Matches(lower, nodes, target) then
      exists i | 0 <= i < |nodes| :: IsBest(lower, nodes, target, i) && nodes[i].id == id
    else id == nodes[0].id
  }

  /**
   With a non-empty next list the result is always the id of one of its nodes: the selected one if it
   survived, else the best match of the node that had been selected, else the first.
   */
  method ResolveRetainedSelectedNodeId(lower: Lower, existing: seq<Node>, next: seq<Node>, selected: Text)
      returns (kept: Text)
    ensures next == [] ==> kept == []
    ensures next != [] ==> exists i | 0 <= i < |next| :: next[i].id == kept
    ensures HasId(next, selected) ==> kept == selected
    ensures next != [] && !HasId(next, selected) && !HasId(existing, selected) ==> kept == next[0].id
    ensures next != [] && !HasId(next, selected) ==>
      forall k: nat | selected != [] && IsFirstWith(existing, selected, k) ::
        Replaces(lower, next, existing[k].identity, kept)
  {
    if next == [] {
      return [];
    }
    var survivor := FindNodeById(next, selected);
    if survivor >= 0 {
      return selected;
    }
    var target := FindNodeById(existing, selected);
    if target == -1 {
      return next[0].id;
    }
    FirstIsUnique(existing, selected, target);
    kept := ReplacementOf(lower, next, existing[target].identity);
  }

  method ReplacementOf(lower: Lower, next: seq<Node>, target: Identity) returns (id: Text)
    requires next != []
    ensures Replaces(lower, next, target, id)
    ensures exists i | 0 <= i < |next| :: next[i].id == id
  {
    hide Tier;
    var matched := FindMatchedSubscriptionNode(lower, next, target);
    id := if matched >= 0 then next[matched].id else next[0].id;
  }

  lemma FirstIsUnique(nodes: seq<Node>, id: Text, i: nat)
    requires IsFirstWith(nodes, id, i)
    ensures forall k | IsFirstWith(nodes, id, k) :: k == i
  {
  }

  /**
   A node that was only renamed is found again: if no other node carries its old remarks, and it is the
   first one with its server, port and password, it is the best match.
   */
  lemma RenamedNodeIsBest(lower: Lower, nodes: seq<Node>, target: Identity, i: nat)
    requires i < |nodes| && SamePassword(lower, nodes[i].identity, target)
    requires forall j | 0 <= j < |nodes| :: !SameRemarks(lower, nodes[j].identity, target)
    ensures IsBest(lower, nodes, target, i) <==>
            forall j | 0 <= j < i :: !SamePassword(lower, nodes[j].identity, target)
  {
    hide SameText;
    if forall j | 0 <= j < i :: !SamePassword(lower, nodes[j].identity, target) {
      assert Tier(lower, nodes[i].identity, target) == 2;
    } else {
      var j :| 0 <= j < i && SamePassword(lower, nodes[j].identity, target);
      assert Tier(lower, nodes[j].identity, target) == 2;
    }
  }

  /** Nodes appended to the list displace the best one exactly if one of them has a smaller tier. */
  lemma {:induction false} BestSurvivesAppending(lower: Lower, nodes: seq<Node>, more: seq<Node>, target: Identity, i: nat)
    requires i < |nodes| && IsBest(lower, nodes, target, i)
    ensures IsBest(lower, nodes + more, target, i) <==>
            forall j | 0 <= j < |more| ::
              Tier(lower, more[j].identity, target) >= Tier(lower, nodes[i].identity, target)
  {
    hide Tier;
    var all := nodes + more;
    assert forall j | 0 <= j < |more| :: all[|nodes| + j] == more[j];
    if forall j | 0 <= j < |more| :: Tier(lower, more[j].identity, target) >= Tier(lower, nodes[i].identity, target) {
      forall j | 0 <= j < |all|
        ensures Tier(lower, all[i].identity, target) <= Tier(lower, all[j].identity, target)
      {
        if j >= |nodes| {
          assert all[j] == more[j - |nodes|];
        }
      }
    }
  }
}
