/**
 * The per-zone client registry of core.c. Each zone keeps a singly linked
 * list of clients, head first, and an integer "current index" into it
 * (`zone_clients[]` and `zone_current_index[]` of `DisplayManager`). A client
 * is identified by its window handle, which stands for the client's address.
 */
module Registry {
  import opened Wrappers
  import opened WmTypes

  /** One zone's bookkeeping: its list of clients, head first, and its current index. */
  datatype Slot = Slot(clients: seq<Window>, current: int)

  /** The registry invariant for one zone (-1 iff empty, otherwise in range). */
  predicate Consistent(s: Slot) {
    SelectionValid(|s.clients|, s.current)
  }

  /**
   * The client reached by walking `current` steps from the head: none when the
   * index is negative or the walk runs off the end of the list.
   */
  function CurrentClient(s: Slot): Option<Window> {
    if 0 <= s.current < |s.clients| then Some(s.clients[s.current]) else None
  }

  /** No window occurs twice in the list. */
  predicate Distinct(xs: seq<Window>) {
    forall i, j :: 0 <= i < j < |xs| ==> xs[i] != xs[j]
  }

  /**
   * `add_client_to_zone` on one zone: the client becomes the new head; the
   * index is set to 0 only when it was negative and is otherwise left as it was.
   */
  function AddFront(s: Slot, w: Window): Slot {
    Slot([w] + s.clients, if s.current < 0 then 0 else s.current)
  }

  /**
   * The index after unlinking the node at `pos` when `remaining` nodes are
   * left: unchanged if the current node had a successor, moved back one if it
   * was the last node, -1 if it was the only one; moved back one when an
   * earlier node was unlinked; unchanged when a later one was.
   */
  function IndexAfterRemoval(pos: int, current: int, remaining: int): int {
    if pos == current then
      if pos < remaining then current
      else if pos > 0 then pos - 1
      else -1
    else if pos < current then current - 1
    else current
  }

  /** `remove_client_from_zone` on one zone: unlink the first node holding `w`, if any. */
  function RemoveFromSlot(s: Slot, w: Window): Slot {
    var pos := IndexOf(s.clients, w);
    if pos == -1 then s
    else Slot(RemoveAt(s.clients, pos), IndexAfterRemoval(pos, s.current, |s.clients| - 1))
  }

  // ---------------------------------------------------------------------------
  // Properties of one zone's add and remove

  /** Adding keeps the registry invariant. */
  lemma AddKeepsConsistent(s: Slot, w: Window)
    requires Consistent(s)
    ensures Consistent(AddFront(s, w))
    ensures |AddFront(s, w).clients| == |s.clients| + 1
  {
  }

  /**
   * Which client is current after an add: the new client when the zone was
   * empty or its index was 0; otherwise the index is unchanged, so it now
   * designates the client one position nearer the head than before.
   */
  lemma AddCurrent(s: Slot, w: Window)
    requires Consistent(s)
    ensures CurrentClient(AddFront(s, w)) ==
      if s.current <= 0 then Some(w) else Some(s.clients[s.current - 1])
  {
  }

  /** The list after removal: the first occurrence of `w` is unlinked, the rest keep their order. */
  lemma RemoveContents(s: Slot, w: Window)
    ensures var r := RemoveFromSlot(s, w);
      && (w !in s.clients ==> r == s)
      && (w in s.clients ==>
            var pos := IndexOf(s.clients, w);
            && r.clients == RemoveAt(s.clients, pos)
            && multiset(r.clients) == multiset(s.clients) - multiset{w})
  {
    if w in s.clients {
      var pos := IndexOf(s.clients, w);
      RemoveAtContents(s.clients, pos);
    }
  }

  /** Removing keeps the registry invariant, and a list without repeats stays without them. */
  lemma RemoveKeepsConsistent(s: Slot, w: Window)
    ensures Consistent(s) ==> Consistent(RemoveFromSlot(s, w))
    ensures Distinct(s.clients) ==> Distinct(RemoveFromSlot(s, w).clients)
    ensures Distinct(s.clients) ==> w !in RemoveFromSlot(s, w).clients
  {
    if w in s.clients {
      var pos := IndexOf(s.clients, w);
      var r := RemoveFromSlot(s, w).clients;
      if Distinct(s.clients) {
        forall k | 0 <= k < |r| ensures r[k] != w {
          assert s.clients[pos] == w;
        }
      }
    }
  }

  /** Removing a client other than the current one leaves the same client current. */
  lemma RemoveOtherKeepsCurrent(s: Slot, w: Window)
    requires Consistent(s)
    requires w in s.clients && IndexOf(s.clients, w) != s.current
    ensures CurrentClient(RemoveFromSlot(s, w)) == CurrentClient(s)
  {
  }

  /**
   * Removing the current client: its successor becomes current if it had
   * one; otherwise its predecessor, or nothing when it was the only client.
   */
  lemma RemoveCurrent(s: Slot, w: Window)
    requires Consistent(s)
    requires w in s.clients && IndexOf(s.clients, w) == s.current
    ensures var r := RemoveFromSlot(s, w);
      && (s.current < |s.clients| - 1 ==>
            r.current == s.current && CurrentClient(r) == Some(s.clients[s.current + 1]))
      && (s.current == |s.clients| - 1 && s.current > 0 ==>
            r.current == s.current - 1 && CurrentClient(r) == Some(s.clients[s.current - 1]))
      && (s.current == |s.clients| - 1 == 0 ==> r == Slot([], -1))
  {
  }

  /**
   * Adding a new client and removing it again restores the list, but not
   * always the index: a positive index ends one lower, because the add left it
   * unchanged while the removal counts the new head as a node before it.
   */
  lemma AddThenRemove(s: Slot, w: Window)
    requires Consistent(s) && w !in s.clients
    ensures RemoveFromSlot(AddFront(s, w), w).clients == s.clients
    ensures RemoveFromSlot(AddFront(s, w), w).current == if s.current > 0 then s.current - 1 else s.current
    ensures s.current <= 0 ==> RemoveFromSlot(AddFront(s, w), w) == s
  {
    var a := AddFront(s, w);
    assert a.clients[0] == w;
    assert IndexOf(a.clients, w) == 0;
    assert a.clients[1..] == s.clients;
  }

  /**
   * The zone-0 and zone-1 scenario of the repository's registry test: two
   * adds with the newest client current, a forced index of 1, and removals
   * that step the index back, empty the zone, and pass to the successor.
   */
  lemma RegistryScenario()
    ensures var s1 := AddFront(Slot([], -1), 1);
      var s2 := AddFront(s1, 2);
      var s3 := RemoveFromSlot(Slot(s2.clients, 1), 2);
      var s4 := RemoveFromSlot(s3, 1);
      && CurrentClient(s1) == Some(1) && s1.current == 0
      && CurrentClient(s2) == Some(2) && s2.current == 0
      && CurrentClient(Slot(s2.clients, 1)) == Some(1)
      && s3 == Slot([1], 0) && CurrentClient(s3) == Some(1)
      && s4 == Slot([], -1) && CurrentClient(s4) == None
    ensures var t := AddFront(AddFront(Slot([], -1), 3), 4);
      && CurrentClient(t) == Some(4)
      && RemoveFromSlot(t, 4) == Slot([3], 0) && CurrentClient(RemoveFromSlot(t, 4)) == Some(3)
  {
    assert [2, 1][..0] == [] && [2, 1][1..] == [1];
    assert IndexOf([2, 1], 2) == 0;
    assert IndexOf([1], 1) == 0;
    assert IndexOf([4, 3], 4) == 0;
    assert [4, 3][1..] == [3];
  }

  /** Every client of `xs` records zone `z` in `owner`, and none occurs twice. */
  ghost predicate ListOwned(xs: seq<Window>, owner: map<Window, int>, z: int) {
    && (forall k :: 0 <= k < |xs| ==> xs[k] in owner && owner[xs[k]] == z)
    && Distinct(xs)
  }

  /** A new head that records zone `z` keeps a list owned, provided it was not listed yet. */
  lemma AddKeepsOwned(xs: seq<Window>, w: Window, owner: map<Window, int>, z: int)
    requires ListOwned(xs, owner, z) && w !in xs
    ensures ListOwned([w] + xs, owner[w := z], z)
  {
  }

  /** Recording a zone for a client that is not listed leaves a list owned. */
  lemma OtherKeepsOwned(xs: seq<Window>, w: Window, owner: map<Window, int>, z: int, z': int)
    requires ListOwned(xs, owner, z) && w !in xs
    ensures ListOwned(xs, owner[w := z'], z)
  {
  }

  /** Unlinking a node keeps a list owned. */
  lemma RemoveKeepsOwned(s: Slot, w: Window, owner: map<Window, int>, z: int)
    requires ListOwned(s.clients, owner, z)
    ensures ListOwned(RemoveFromSlot(s, w).clients, owner, z)
  {
    RemoveKeepsConsistent(s, w);
  }

  // ---------------------------------------------------------------------------
  // The registry itself

  /**
   * The zone bookkeeping of `DisplayManager`: `zone_count`, the array of list
   * heads `zone_clients`, the array `zone_current_index`, and the
   * `zone_index` field of each client.
   */
  class DisplayManager {
    const zoneCount: int
    const zoneClients: array<seq<Window>>
    const zoneCurrentIndex: array<int>
    var clientZone: map<Window, int>

    /** Both arrays have one entry per zone. */
    predicate Valid() {
      zoneClients.Length == zoneCount && zoneCurrentIndex.Length == zoneCount
    }

    function SlotAt(zone: int): Slot
      reads zoneClients, zoneCurrentIndex
      requires Valid() && 0 <= zone < zoneCount
    {
      Slot(zoneClients[zone], zoneCurrentIndex[zone])
    }

    /** The registry invariant holds in every zone. */
    ghost predicate AllConsistent()
      reads zoneClients, zoneCurrentIndex
      requires Valid()
    {
      forall z :: 0 <= z < zoneCount ==> Consistent(SlotAt(z))
    }

    /**
     * Every listed client records the zone whose list holds it, so no client
     * is listed in two zones; and no list holds a client twice.
     */
    ghost predicate Owned()
      reads this, zoneClients
      requires Valid()
    {
      forall z :: 0 <= z < zoneCount ==> ListOwned(zoneClients[z], clientZone, z)
    }

    /** A display with `zoneCount` empty zones, each with index -1. */
    constructor (zoneCount: nat)
      ensures this.zoneCount == zoneCount && Valid()
      ensures fresh(zoneClients) && fresh(zoneCurrentIndex)
      ensures forall z :: 0 <= z < zoneCount ==> SlotAt(z) == Slot([], -1)
      ensures clientZone == map[]
      ensures AllConsistent() && Owned()
    {
      this.zoneCount := zoneCount;
      zoneClients := new seq<Window>[zoneCount](_ => []);
      zoneCurrentIndex := new int[zoneCount](_ => -1);
      clientZone := map[];
    }

    /** `count_clients_in_zone`: the length of the zone's list, 0 for an invalid zone. */
    method CountClientsInZone(zone: int) returns (count: int)
      requires Valid()
      ensures count == if 0 <= zone < zoneCount then |zoneClients[zone]| else 0
    {
      if zone < 0 || zone >= zoneCount {
        return 0;
      }
      count := 0;
      var node := zoneClients[zone];
      while node != []
        invariant count + |node| == |zoneClients[zone]|
      {
        count := count + 1;
        node := node[1..];
      }
    }

    /**
     * `get_current_client_in_zone`: the client at the current index, or none
     * for an invalid zone, a negative index or an index past the end.
     */
    method GetCurrentClientInZone(zone: int) returns (client: Option<Window>)
      requires Valid()
      ensures client == if 0 <= zone < zoneCount then CurrentClient(SlotAt(zone)) else None
    {
      if zone < 0 || zone >= zoneCount {
        return None;
      }
      var clients := zoneClients[zone];
      var currentIndex := zoneCurrentIndex[zone];
      if clients == [] || currentIndex < 0 {
        return None;
      }
      var node := clients;
      var i := 0;
      while i < currentIndex && node != []
        invariant 0 <= i <= currentIndex && i <= |clients|
        invariant node == clients[i..]
      {
        node := node[1..];
        i := i + 1;
      }
      client := if node == [] then None else Some(node[0]);
    }

    /**
     * `add_client_to_zone`: a no-op for a NULL client or an invalid zone;
     * otherwise the client records the zone and becomes the head of its list,
     * and the index is initialised only if it was negative.
     */
    method AddClientToZone(zone: int, client: Option<Window>)
      requires Valid()
      modifies this, zoneClients, zoneCurrentIndex
      ensures client == None || !(0 <= zone < zoneCount) ==>
        unchanged(this, zoneClients, zoneCurrentIndex)
      ensures client != None && 0 <= zone < zoneCount ==>
        && SlotAt(zone) == AddFront(old(SlotAt(zone)), client.value)
        && clientZone == old(clientZone)[client.value := zone]
        && (forall z :: 0 <= z < zoneCount && z != zone ==> SlotAt(z) == old(SlotAt(z)))
      ensures old(AllConsistent()) ==> AllConsistent()
      ensures client != None && old(Owned()) && (forall z :: 0 <= z < zoneCount ==> client.value !in old(zoneClients[z]))
        ==> Owned()
    {
      if client == None || zone < 0 || zone >= zoneCount {
        return;
      }
      var w := client.value;
      clientZone := clientZone[w := zone];
      zoneClients[zone] := [w] + zoneClients[zone];
      if zoneCurrentIndex[zone] < 0 {
        zoneCurrentIndex[zone] := 0;
      }
      assert SlotAt(zone) == AddFront(old(SlotAt(zone)), w);
      if old(AllConsistent()) {
        forall z | 0 <= z < zoneCount ensures Consistent(SlotAt(z)) {
          if z == zone {
            AddKeepsConsistent(old(SlotAt(zone)), w);
          } else {
            assert SlotAt(z) == old(SlotAt(z));
          }
        }
      }
      if old(Owned()) && forall z :: 0 <= z < zoneCount ==> w !in old(zoneClients[z]) {
        forall z | 0 <= z < zoneCount ensures ListOwned(zoneClients[z], clientZone, z) {
          if z == zone {
            AddKeepsOwned(old(zoneClients[z]), w, old(clientZone), z);
          } else {
            OtherKeepsOwned(old(zoneClients[z]), w, old(clientZone), z, zone);
          }
        }
      }
    }

    /**
     * `remove_client_from_zone`: a no-op for a NULL client, an invalid zone or
     * a client the zone does not hold; otherwise the first node holding the
     * client is unlinked and the index adjusted by where that node sat.
     */
    method RemoveClientFromZone(zone: int, client: Option<Window>)
      requires Valid()
      modifies zoneClients, zoneCurrentIndex
      ensures client == None || !(0 <= zone < zoneCount) ==> unchanged(zoneClients, zoneCurrentIndex)
      ensures client != None && 0 <= zone < zoneCount ==>
        && SlotAt(zone) == RemoveFromSlot(old(SlotAt(zone)), client.value)
        && (forall z :: 0 <= z < zoneCount && z != zone ==> SlotAt(z) == old(SlotAt(z)))
      ensures old(AllConsistent()) ==> AllConsistent()
      ensures old(Owned()) ==> Owned()
    {
      if client == None || zone < 0 || zone >= zoneCount {
        return;
      }
      var w := client.value;
      var clients := zoneClients[zone];
      // walk the cursor to the first node holding the client
      var node := clients;
      var index := 0;
      while node != [] && node[0] != w
        invariant 0 <= index <= |clients| && node == clients[index..]
        invariant w !in clients[..index]
      {
        assert clients[..index + 1] == clients[..index] + [node[0]];
        node := node[1..];
        index := index + 1;
      }
      if node == [] {
        assert clients[..index] == clients;
        return;
      }
      assert IndexOf(clients, w) == index;
      Unlink(zone, w, index);
    }

    /**
     * The body of the search loop of `remove_client_from_zone` once the
     * cursor reaches the node at position `index`, the first holding `w`.
     */
    method Unlink(zone: int, w: Window, index: int)
      requires Valid() && 0 <= zone < zoneCount
      requires 0 <= index < |zoneClients[zone]| && IndexOf(zoneClients[zone], w) == index
      modifies zoneClients, zoneCurrentIndex
      ensures SlotAt(zone) == RemoveFromSlot(old(SlotAt(zone)), w)
      ensures forall z :: 0 <= z < zoneCount && z != zone ==> SlotAt(z) == old(SlotAt(z))
      ensures old(AllConsistent()) ==> AllConsistent()
      ensures old(Owned()) ==> Owned()
    {
      ghost var before := SlotAt(zone);
      var clients := zoneClients[zone];
      var next := clients[index + 1..];
      zoneClients[zone] := clients[..index] + next;
      var currentIndex := zoneCurrentIndex[zone];
      if index == currentIndex {
        if next != [] {
          // the successor slides into the current position
        } else if index > 0 {
          zoneCurrentIndex[zone] := index - 1;
        } else {
          zoneCurrentIndex[zone] := -1;
        }
      } else if index < currentIndex {
        zoneCurrentIndex[zone] := currentIndex - 1;
      }
      assert SlotAt(zone) == RemoveFromSlot(before, w);
      RemoveKeepsConsistent(before, w);
      if old(Owned()) {
        RemoveKeepsOwned(before, w, clientZone, zone);
      }
    }
  }
}
