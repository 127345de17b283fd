/** app/rpc/rpccontext/notificationmanager.go: clients that subscribe to addresses are told of the
    changes of the UTXO index at these addresses. */
module Notifications {
  import opened Failures
  import opened IndexDatabases
  import opened Options
  import opened Transactions
  import opened UtxoIndexCodec
  import opened UtxoIndexStores
  import opened UtxoIndices

  /** An address, and the script that pays to it. */
  datatype NotificationAddress = NotificationAddress(address: string, key: KeyString)

  type Addresses = map<KeyString, NotificationAddress>

  /** What a notification says about one outpoint: its entry if it was added. */
  datatype AddressEntry = AddressEntry(address: string, outpoint: Outpoint, entry: Option<UTXOEntry>)

  datatype Notification = Notification(added: seq<AddressEntry>, removed: seq<AddressEntry>)

  /** Every address is subscribed under its script, which the address alone determines. */
  ghost predicate Subscribed(scriptOf: string -> KeyString, addresses: Addresses) {
    forall k :: k in addresses ==> addresses[k].key == k == scriptOf(addresses[k].address)
  }

  // ----- the entries of a notification -----

  /** The entry tells of an added outpoint at a subscribed address. */
  ghost predicate IsAdded(scriptOf: string -> KeyString, added: Additions, addresses: Addresses, e: AddressEntry) {
    var k := scriptOf(e.address);
    && k in added
    && k in addresses
    && addresses[k].address == e.address
    && e.outpoint in added[k]
    && e.entry == Some(added[k][e.outpoint])
  }

  ghost predicate IsRemoved(scriptOf: string -> KeyString, removed: Removals, addresses: Addresses, e: AddressEntry) {
    var k := scriptOf(e.address);
    && k in removed
    && k in addresses
    && addresses[k].address == e.address
    && e.outpoint in removed[k]
    && e.entry == None
  }

  /** The list tells of every added outpoint at a subscribed address once, and of nothing else. */
  ghost predicate ListsAdded(scriptOf: string -> KeyString, added: Additions, addresses: Addresses,
                             list: seq<AddressEntry>) {
    Distinct(list) && forall e :: e in list <==> IsAdded(scriptOf, added, addresses, e)
  }

  ghost predicate ListsRemoved(scriptOf: string -> KeyString, removed: Removals, addresses: Addresses,
                               list: seq<AddressEntry>) {
    Distinct(list) && forall e :: e in list <==> IsRemoved(scriptOf, removed, addresses, e)
  }

  ghost predicate Tells(scriptOf: string -> KeyString, changes: UTXOChanges, addresses: Addresses, n: Notification) {
    && ListsAdded(scriptOf, changes.added, addresses, n.added)
    && ListsRemoved(scriptOf, changes.removed, addresses, n.removed)
  }

  ghost predicate ArePairs(address: string, pairs: map<Outpoint, UTXOEntry>, list: seq<AddressEntry>) {
    && Distinct(list)
    && forall e :: e in list <==> e.address == address && e.outpoint in pairs && e.entry == Some(pairs[e.outpoint])
  }

  ghost predicate AreOutpoints(address: string, outpoints: set<Outpoint>, list: seq<AddressEntry>) {
    && Distinct(list)
    && forall e :: e in list <==> e.address == address && e.outpoint in outpoints && e.entry == None
  }

  method ConvertPairs(address: string, pairs: map<Outpoint, UTXOEntry>) returns (entries: seq<AddressEntry>)
    ensures ArePairs(address, pairs, entries)
  {
    entries := [];
    var remaining := pairs.Keys;
    while remaining != {}
      invariant remaining <= pairs.Keys && ArePairs(address, pairs - remaining, entries)
      decreases |remaining|
    {
      var op :| op in remaining;
      entries := entries + [AddressEntry(address, op, Some(pairs[op]))];
      remaining := remaining - {op};
    }
    assert pairs - remaining == pairs;
  }

  method ConvertOutpoints(address: string, outpoints: set<Outpoint>) returns (entries: seq<AddressEntry>)
    ensures AreOutpoints(address, outpoints, entries)
  {
    entries := [];
    var remaining := outpoints;
    while remaining != {}
      invariant remaining <= outpoints && AreOutpoints(address, outpoints - remaining, entries)
      decreases |remaining|
    {
      var op :| op in remaining;
      entries := entries + [AddressEntry(address, op, None)];
      remaining := remaining - {op};
    }
    assert outpoints - remaining == outpoints;
  }

  lemma DistinctConcat(a: seq<AddressEntry>, b: seq<AddressEntry>)
    requires Distinct(a) && Distinct(b) && forall e :: e in a ==> e !in b
    ensures Distinct(a + b)
  {
    forall i, j | 0 <= i < j < |a + b| ensures (a + b)[i] != (a + b)[j] {
      if i < |a| <= j {
        assert a[i] in a && b[j - |a|] in b;
      }
    }
  }

  // ----- one more script, or one more address -----

  lemma AddedMoreScripts(scriptOf: string -> KeyString, added: Additions, addresses: Addresses,
                         remaining: set<KeyString>,
                         k: KeyString, list: seq<AddressEntry>, more: seq<AddressEntry>)
    requires Subscribed(scriptOf, addresses) && k in remaining && remaining <= added.Keys
    requires ListsAdded(scriptOf, added - remaining, addresses, list)
    requires if k in addresses then ArePairs(addresses[k].address, added[k], more) else more == []
    ensures ListsAdded(scriptOf, added - (remaining - {k}), addresses, list + more)
  {
    DistinctConcat(list, more);
  }

  lemma RemovedMoreScripts(scriptOf: string -> KeyString, removed: Removals, addresses: Addresses,
                           remaining: set<KeyString>,
                           k: KeyString, list: seq<AddressEntry>, more: seq<AddressEntry>)
    requires Subscribed(scriptOf, addresses) && k in remaining && remaining <= removed.Keys
    requires ListsRemoved(scriptOf, removed - remaining, addresses, list)
    requires if k in addresses then AreOutpoints(addresses[k].address, removed[k], more) else more == []
    ensures ListsRemoved(scriptOf, removed - (remaining - {k}), addresses, list + more)
  {
    DistinctConcat(list, more);
  }

  lemma AddedMoreAddresses(scriptOf: string -> KeyString, added: Additions, addresses: Addresses,
                           remaining: set<KeyString>,
                           k: KeyString, list: seq<AddressEntry>, more: seq<AddressEntry>)
    requires Subscribed(scriptOf, addresses) && k in remaining && remaining <= addresses.Keys
    requires ListsAdded(scriptOf, added, addresses - remaining, list)
    requires if k in added then ArePairs(addresses[k].address, added[k], more) else more == []
    ensures ListsAdded(scriptOf, added, addresses - (remaining - {k}), list + more)
  {
    DistinctConcat(list, more);
  }

  lemma RemovedMoreAddresses(scriptOf: string -> KeyString, removed: Removals, addresses: Addresses,
                             remaining: set<KeyString>,
                             k: KeyString, list: seq<AddressEntry>, more: seq<AddressEntry>)
    requires Subscribed(scriptOf, addresses) && k in remaining && remaining <= addresses.Keys
    requires ListsRemoved(scriptOf, removed, addresses - remaining, list)
    requires if k in removed then AreOutpoints(addresses[k].address, removed[k], more) else more == []
    ensures ListsRemoved(scriptOf, removed, addresses - (remaining - {k}), list + more)
  {
    DistinctConcat(list, more);
  }

  /** Two lists that tell the same are permutations of each other. */
  lemma SameList(a: seq<AddressEntry>, b: seq<AddressEntry>)
    requires Distinct(a) && Distinct(b) && forall e :: e in a <==> e in b
    ensures multiset(a) == multiset(b)
  {
    forall e ensures multiset(a)[e] == multiset(b)[e] {
      CountOnce(a, e);
      CountOnce(b, e);
    }
  }

  lemma {:induction false} CountOnce(a: seq<AddressEntry>, e: AddressEntry)
    requires Distinct(a)
    ensures multiset(a)[e] == if e in a then 1 else 0
    decreases |a|
  {
    if a != [] {
      var n := |a| - 1;
      CountOnce(a[..n], e);
      assert a == a[..n] + [a[n]];
      assert a[n] !in a[..n];
    }
  }

  // ----- what a client makes of notifications -----

  /** The UTXOs a client knows of, by address and outpoint. */
  type Client = map<(string, Outpoint), UTXOEntry>

  ghost function ForgetAll(client: Client, list: seq<AddressEntry>): Client {
    if list == [] then client
    else
      var last := list[|list| - 1];
      ForgetAll(client, list[..|list| - 1]) - {(last.address, last.outpoint)}
  }

  ghost function LearnAll(client: Client, list: seq<AddressEntry>): Client {
    if list == [] then client
    else
      var last, rest := list[|list| - 1], LearnAll(client, list[..|list| - 1]);
      if last.entry.Some? then rest[(last.address, last.outpoint) := last.entry.value] else rest
  }

  ghost function Replay(client: Client, n: Notification): Client {
    LearnAll(ForgetAll(client, n.removed), n.added)
  }

  ghost function ReplayAll(client: Client, ns: seq<Notification>): Client {
    if ns == [] then client else Replay(ReplayAll(client, ns[..|ns| - 1]), ns[|ns| - 1])
  }

  /** The client knows exactly the entries of the index at its addresses. */
  ghost predicate Mirrors(scriptOf: string -> KeyString, client: Client, index: Index, addresses: Addresses) {
    forall a: string, op: Outpoint ::
      Known(client, a, op) == Indexed(index, addresses, scriptOf(a), a, op)
  }

  ghost function Known(client: Client, a: string, op: Outpoint): Option<UTXOEntry> {
    if (a, op) in client then Some(client[(a, op)]) else None
  }

  ghost function Indexed(index: Index, addresses: Addresses, k: KeyString, a: string, op: Outpoint): Option<UTXOEntry> {
    if k in addresses && addresses[k].address == a && Slot(k, op) in index then Some(index[Slot(k, op)]) else None
  }

  lemma {:induction false} ForgetAllAt(client: Client, list: seq<AddressEntry>, a: string, op: Outpoint)
    ensures Known(ForgetAll(client, list), a, op)
         == if exists e :: e in list && e.address == a && e.outpoint == op then None else Known(client, a, op)
    decreases |list|
  {
    if list != [] {
      var n := |list| - 1;
      ForgetAllAt(client, list[..n], a, op);
      assert forall e :: e in list <==> e in list[..n] || e == list[n];
    }
  }

  /** Adding what the list tells, in whichever order, when it tells of no outpoint twice. */
  lemma {:induction false} LearnAllAt(client: Client, list: seq<AddressEntry>, a: string, op: Outpoint, e: AddressEntry)
    requires forall x :: x in list && x.address == a && x.outpoint == op ==> x == e
    requires e.address == a && e.outpoint == op && e.entry.Some?
    ensures Known(LearnAll(client, list), a, op) == if e in list then e.entry else Known(client, a, op)
    decreases |list|
  {
    if list != [] {
      var n := |list| - 1;
      LearnAllAt(client, list[..n], a, op, e);
      assert forall x :: x in list <==> x in list[..n] || x == list[n];
    }
  }

  lemma ForgetRemoved(scriptOf: string -> KeyString, removed: Removals, addresses: Addresses, client: Client,
                      list: seq<AddressEntry>, a: string, op: Outpoint)
    requires ListsRemoved(scriptOf, removed, addresses, list)
    ensures Known(ForgetAll(client, list), a, op)
         == if IsRemoved(scriptOf, removed, addresses, AddressEntry(a, op, None)) then None else Known(client, a, op)
  {
    ForgetAllAt(client, list, a, op);
    if exists e :: e in list && e.address == a && e.outpoint == op {
      var e :| e in list && e.address == a && e.outpoint == op;
      assert IsRemoved(scriptOf, removed, addresses, e);
    }
  }

  lemma LearnAdded(scriptOf: string -> KeyString, added: Additions, addresses: Addresses, client: Client,
                   list: seq<AddressEntry>, a: string, op: Outpoint)
    requires ListsAdded(scriptOf, added, addresses, list)
    ensures Known(LearnAll(client, list), a, op)
         == var k := scriptOf(a);
            if k in added && k in addresses && addresses[k].address == a && op in added[k] then Some(added[k][op])
            else Known(client, a, op)
  {
    var k := scriptOf(a);
    if k in added && k in addresses && addresses[k].address == a && op in added[k] {
      LearnAllAt(client, list, a, op, AddressEntry(a, op, Some(added[k][op])));
    } else {
      LearnNothing(client, list, a, op);
    }
  }

  lemma {:induction false} LearnNothing(client: Client, list: seq<AddressEntry>, a: string, op: Outpoint)
    requires forall x :: x in list ==> x.address != a || x.outpoint != op
    ensures Known(LearnAll(client, list), a, op) == Known(client, a, op)
    decreases |list|
  {
    if list != [] {
      var n := |list| - 1;
      LearnNothing(client, list[..n], a, op);
      assert list[n] in list;
    }
  }

  lemma ViewAt(index: Index, added: Additions, removed: Removals, s: Slot)
    ensures var view := View(index, added, removed);
      (if s in view then Some(view[s]) else None)
      == if s.bucket in added && s.outpoint in added[s.bucket] then Some(added[s.bucket][s.outpoint])
         else if s.bucket in removed && s.outpoint in removed[s.bucket] then None
         else if s in index then Some(index[s]) else None
  {
    EntryAdded(added, s);
    RemovedSlot(removed, s);
  }

  /** A client that mirrors the index mirrors it again after it was told of a change. */
  lemma TellingMirrors(scriptOf: string -> KeyString, client: Client, index: Index, addresses: Addresses,
                       changes: UTXOChanges, n: Notification)
    requires Mirrors(scriptOf, client, index, addresses) && Tells(scriptOf, changes, addresses, n)
    ensures Mirrors(scriptOf, Replay(client, n), View(index, changes.added, changes.removed), addresses)
  {
    hide View, LearnAll, ForgetAll;
    var view := View(index, changes.added, changes.removed);
    forall a: string, op: Outpoint
      ensures Known(Replay(client, n), a, op) == Indexed(view, addresses, scriptOf(a), a, op)
    {
      LearnAdded(scriptOf, changes.added, addresses, ForgetAll(client, n.removed), n.added, a, op);
      ForgetRemoved(scriptOf, changes.removed, addresses, client, n.removed, a, op);
      ViewAt(index, changes.added, changes.removed, Slot(scriptOf(a), op));
      assert Known(client, a, op) == Indexed(index, addresses, scriptOf(a), a, op);
    }
  }

  // ----- listeners -----

  ghost function WithAddresses(addresses: Addresses, list: seq<NotificationAddress>): Addresses {
    if list == [] then addresses
    else
      var last := list[|list| - 1];
      WithAddresses(addresses, list[..|list| - 1])[last.key := last]
  }

  ghost function KeysOf(list: seq<NotificationAddress>): set<KeyString> {
    set a | a in list :: a.key
  }

  class NotificationListener {
    ghost const scriptOf: string -> KeyString
    var propagatesUTXOsChanged: bool
    var addresses: Addresses

    ghost predicate Valid()
      reads this
    {
      Subscribed(scriptOf, addresses) && (!propagatesUTXOsChanged ==> addresses == map[])
    }

    constructor (ghost scriptOf: string -> KeyString)
      ensures this.scriptOf == scriptOf && !propagatesUTXOsChanged && Valid()
    {
      this.scriptOf, propagatesUTXOsChanged, addresses := scriptOf, false, map[];
    }

    /** Subscribes to further addresses. */
    method PropagateUTXOsChangedNotifications(list: seq<NotificationAddress>)
      requires Valid() && forall a :: a in list ==> a.key == scriptOf(a.address)
      modifies this
      ensures Valid() && propagatesUTXOsChanged && addresses == WithAddresses(old(addresses), list)
    {
      if !propagatesUTXOsChanged {
        propagatesUTXOsChanged := true;
        addresses := map[];
      }
      for k := 0 to |list|
        invariant Valid() && propagatesUTXOsChanged && addresses == WithAddresses(old(addresses), list[..k])
      {
        assert list[..k + 1][..k] == list[..k];
        assert list[k] in list;
        addresses := addresses[list[k].key := list[k]];
      }
      assert list[..|list|] == list;
    }

    /** Unsubscribes from addresses; others than the subscribed ones do not matter. */
    method StopPropagatingUTXOsChangedNotifications(list: seq<NotificationAddress>)
      requires Valid()
      modifies this
      ensures Valid() && propagatesUTXOsChanged == old(propagatesUTXOsChanged)
      ensures addresses == old(addresses) - KeysOf(list)
    {
      if !propagatesUTXOsChanged {
        return;
      }
      for k := 0 to |list|
        invariant Valid() && propagatesUTXOsChanged && addresses == old(addresses) - KeysOf(list[..k])
      {
        assert KeysOf(list[..k + 1]) == KeysOf(list[..k]) + {list[k].key} by {
          assert list[..k + 1] == list[..k] + [list[k]];
          assert forall a :: a in list[..k + 1] <==> a in list[..k] || a == list[k];
          assert list[k] in list[..k + 1];
        }
        addresses := addresses - {list[k].key};
      }
      assert list[..|list|] == list;
    }

    /** Goes through the scripts with added outpoints. */
    method AddedByScripts(changes: UTXOChanges) returns (added: seq<AddressEntry>)
      requires Valid()
      ensures ListsAdded(scriptOf, changes.added, addresses, added)
    {
      hide ArePairs;
      added := [];
      var remaining := changes.added.Keys;
      while remaining != {}
        invariant remaining <= changes.added.Keys
        invariant ListsAdded(scriptOf, changes.added - remaining, addresses, added)
        decreases |remaining|
      {
        var k :| k in remaining;
        var more := [];
        if k in addresses {
          more := ConvertPairs(addresses[k].address, changes.added[k]);
        }
        AddedMoreScripts(scriptOf, changes.added, addresses, remaining, k, added, more);
        added := added + more;
        remaining := remaining - {k};
      }
      assert changes.added - remaining == changes.added;
    }

    /** Goes through the scripts with removed outpoints. */
    method RemovedByScripts(changes: UTXOChanges) returns (removed: seq<AddressEntry>)
      requires Valid()
      ensures ListsRemoved(scriptOf, changes.removed, addresses, removed)
    {
      hide AreOutpoints;
      removed := [];
      var remaining := changes.removed.Keys;
      while remaining != {}
        invariant remaining <= changes.removed.Keys
        invariant ListsRemoved(scriptOf, changes.removed - remaining, addresses, removed)
        decreases |remaining|
      {
        var k :| k in remaining;
        var more := [];
        if k in addresses {
          more := ConvertOutpoints(addresses[k].address, changes.removed[k]);
        }
        RemovedMoreScripts(scriptOf, changes.removed, addresses, remaining, k, removed, more);
        removed := removed + more;
        remaining := remaining - {k};
      }
      assert changes.removed - remaining == changes.removed;
    }

    /** Goes through the subscribed addresses. */
    method ConvertByAddresses(changes: UTXOChanges) returns (n: Notification)
      requires Valid()
      ensures Tells(scriptOf, changes, addresses, n)
    {
      hide ArePairs, AreOutpoints;
      var added, removed: seq<AddressEntry> := [], [];
      var remaining := addresses.Keys;
      while remaining != {}
        invariant remaining <= addresses.Keys
        invariant ListsAdded(scriptOf, changes.added, addresses - remaining, added)
        invariant ListsRemoved(scriptOf, changes.removed, addresses - remaining, removed)
        decreases |remaining|
      {
        var k :| k in remaining;
        var address := addresses[k];
        var moreAdded, moreRemoved := [], [];
        if address.key in changes.added {
          moreAdded := ConvertPairs(address.address, changes.added[address.key]);
        }
        if address.key in changes.removed {
          moreRemoved := ConvertOutpoints(address.address, changes.removed[address.key]);
        }
        AddedMoreAddresses(scriptOf, changes.added, addresses, remaining, k, added, moreAdded);
        RemovedMoreAddresses(scriptOf, changes.removed, addresses, remaining, k, removed, moreRemoved);
        added, removed := added + moreAdded, removed + moreRemoved;
        remaining := remaining - {k};
      }
      assert addresses - remaining == addresses;
      n := Notification(added, removed);
    }

    /** Goes through whichever is fewer; the notification is the same but for its order. */
    method ConvertUTXOChangesToUTXOsChangedNotification(changes: UTXOChanges) returns (n: Notification)
      requires Valid()
      ensures Tells(scriptOf, changes, addresses, n)
    {
      if |changes.added| + |changes.removed| < |addresses| {
        var added := AddedByScripts(changes);
        var removed := RemovedByScripts(changes);
        n := Notification(added, removed);
      } else {
        n := ConvertByAddresses(changes);
      }
    }
  }

  /** The two ways of going through the changes give the same notification but for its order. */
  lemma OneNotification(scriptOf: string -> KeyString, changes: UTXOChanges, addresses: Addresses, n: Notification,
                        m: Notification)
    requires Tells(scriptOf, changes, addresses, n) && Tells(scriptOf, changes, addresses, m)
    ensures multiset(n.added) == multiset(m.added) && multiset(n.removed) == multiset(m.removed)
  {
    SameList(n.added, m.added);
    SameList(n.removed, m.removed);
  }

  // ----- the manager -----

  class Router {
    const fails: nat -> bool
    var outgoing: seq<Notification>

    method Enqueue(n: Notification) returns (err: bool)
      modifies this
      ensures err == fails(|old(outgoing)|)
      ensures outgoing == if err then old(outgoing) else old(outgoing) + [n]
    {
      err := fails(|outgoing|);
      if !err {
        outgoing := outgoing + [n];
      }
    }
  }

  /** What was sent tells of the changes; a notification without entries is not sent. */
  ghost predicate Delivered(scriptOf: string -> KeyString, changes: UTXOChanges, addresses: Addresses,
                            before: seq<Notification>, after: seq<Notification>) {
    exists n :: Tells(scriptOf, changes, addresses, n) && after == before + Sent(n)
  }

  ghost function Sent(n: Notification): seq<Notification> {
    if n.added == [] && n.removed == [] then [] else [n]
  }

  /** What was sent between two states of a route. */
  ghost function Since(before: seq<Notification>, after: seq<Notification>): seq<Notification>
    requires before <= after
  {
    after[|before|..]
  }

  /** A client that mirrors the index mirrors the changed one after replaying what it was sent. */
  lemma DeliveryMirrors(scriptOf: string -> KeyString, changes: UTXOChanges, addresses: Addresses, client: Client,
                        index: Index, before: seq<Notification>, after: seq<Notification>)
    requires Mirrors(scriptOf, client, index, addresses)
    requires Delivered(scriptOf, changes, addresses, before, after)
    ensures before <= after
    ensures Mirrors(scriptOf, ReplayAll(client, Since(before, after)), View(index, changes.added, changes.removed),
                    addresses)
  {
    hide Mirrors, Tells;
    var n :| Tells(scriptOf, changes, addresses, n) && after == before + Sent(n);
    TellingMirrors(scriptOf, client, index, addresses, changes, n);
    assert Since(before, after) == Sent(n);
    if Sent(n) == [n] {
      assert [n][..0] == [];
    }
  }

  lemma {:induction false} ReplayAllConcat(client: Client, a: seq<Notification>, b: seq<Notification>)
    ensures ReplayAll(client, a + b) == ReplayAll(ReplayAll(client, a), b)
    decreases |b|
  {
    if b == [] {
      assert a + b == a;
    } else {
      var n := |b| - 1;
      ReplayAllConcat(client, a, b[..n]);
      assert (a + b)[..|a| + n] == a + b[..n];
    }
  }

  class NotificationManager {
    var listeners: map<Router, NotificationListener>

    constructor ()
      ensures listeners == map[]
    {
      listeners := map[];
    }

    ghost predicate Valid()
      reads this, listeners.Values
    {
      forall router :: router in listeners ==> listeners[router].Valid()
    }

    method AddListener(router: Router, ghost scriptOf: string -> KeyString)
      requires Valid()
      modifies this
      ensures Valid() && router in listeners && fresh(listeners[router]) && !listeners[router].propagatesUTXOsChanged
      ensures listeners == old(listeners)[router := listeners[router]]
    {
      var listener := new NotificationListener(scriptOf);
      listeners := listeners[router := listener];
    }

    method RemoveListener(router: Router)
      requires Valid()
      modifies this
      ensures Valid() && listeners == old(listeners) - {router}
    {
      listeners := listeners - {router};
    }

    /** What one listener was sent because of the changes. */
    ghost predicate Notified(router: Router, changes: UTXOChanges, before: seq<Notification>)
      requires router in listeners
      reads this, listeners.Values, router
    {
      var listener := listeners[router];
      if listener.propagatesUTXOsChanged then
        Delivered(listener.scriptOf, changes, listener.addresses, before, router.outgoing)
      else router.outgoing == before
    }

    method NotifyOne(router: Router, changes: UTXOChanges) returns (err: bool)
      requires Valid() && router in listeners
      modifies router
      ensures !err ==> Notified(router, changes, old(router.outgoing))
      ensures err ==> router.outgoing == old(router.outgoing) && Refuses(router)
    {
      var listener := listeners[router];
      if !listener.propagatesUTXOsChanged {
        return false;
      }
      var n := listener.ConvertUTXOChangesToUTXOsChangedNotification(changes);
      if |n.added| == 0 && |n.removed| == 0 {
        assert router.outgoing == router.outgoing + Sent(n);
        return false;
      }
      err := router.Enqueue(n);
    }

    /** A listener to be told whose route takes nothing. */
    ghost predicate Refuses(router: Router)
      requires router in listeners
      reads this, listeners.Values, router
    {
      listeners[router].propagatesUTXOsChanged && router.fails(|router.outgoing|)
    }

    /** Every listener that wants to is told of the changes. The first route that takes nothing ends
        it: then some listeners are told, and the others are sent nothing. */
    method NotifyUTXOsChanged(changes: UTXOChanges) returns (err: bool, ghost told: set<Router>)
      requires Valid()
      modifies listeners.Keys
      ensures told <= listeners.Keys && (err <==> told != listeners.Keys)
      ensures forall router :: router in told ==> Notified(router, changes, old(router.outgoing))
      ensures forall router :: router in listeners.Keys - told ==> router.outgoing == old(router.outgoing)
      ensures err ==> exists router :: router in listeners.Keys - told && Refuses(router)
    {
      hide *;
      var remaining := listeners.Keys;
      while remaining != {}
        invariant remaining <= listeners.Keys
        invariant forall router :: router in remaining ==> router.outgoing == old(router.outgoing)
        invariant forall router :: router in listeners && router !in remaining ==>
          Notified(router, changes, old(router.outgoing))
        decreases |remaining|
      {
        var router :| router in remaining;
        err := NotifyOne(router, changes);
        if err {
          return err, listeners.Keys - remaining;
        }
        remaining := remaining - {router};
      }
      return false, listeners.Keys;
    }
  }

  /** Every client that mirrors the index before mirrors the index after, once it has replayed what
      was sent. */
  ghost predicate StillMirror(listener: NotificationListener, sent: seq<Notification>, before: Index, after: Index)
    reads listener
  {
    forall client: Client :: Mirrors(listener.scriptOf, client, before, listener.addresses) ==>
      Mirrors(listener.scriptOf, ReplayAll(client, sent), after, listener.addresses)
  }

  lemma NotifiedMirror(listener: NotificationListener, changes: UTXOChanges, before: seq<Notification>,
                       after: seq<Notification>, index: Index)
    requires Delivered(listener.scriptOf, changes, listener.addresses, before, after)
    ensures before <= after
    ensures StillMirror(listener, Since(before, after), index, View(index, changes.added, changes.removed))
  {
    hide Mirrors, View;
    forall client: Client | Mirrors(listener.scriptOf, client, index, listener.addresses)
      ensures Mirrors(listener.scriptOf, ReplayAll(client, Since(before, after)),
                      View(index, changes.added, changes.removed), listener.addresses)
    {
      DeliveryMirrors(listener.scriptOf, changes, listener.addresses, client, index, before, after);
    }
  }

  lemma StillMirrorThen(listener: NotificationListener, a: seq<Notification>, b: seq<Notification>,
                        first: Index, second: Index, third: Index)
    requires StillMirror(listener, a, first, second) && StillMirror(listener, b, second, third)
    ensures StillMirror(listener, a + b, first, third)
  {
    hide Mirrors, ReplayAll;
    forall client: Client | Mirrors(listener.scriptOf, client, first, listener.addresses)
      ensures Mirrors(listener.scriptOf, ReplayAll(client, a + b), third, listener.addresses)
    {
      ReplayAllConcat(client, a, b);
    }
  }

  // ----- the index and its clients -----

  /** What a subscribed listener was sent lets its clients follow from one index to the other. */
  ghost predicate Informed(listener: NotificationListener, before: seq<Notification>, after: seq<Notification>,
                           indexBefore: Index, indexAfter: Index)
    reads listener
  {
    listener.propagatesUTXOsChanged ==>
      before <= after && StillMirror(listener, Since(before, after), indexBefore, indexAfter)
  }

  lemma NotifiedInformed(manager: NotificationManager, router: Router, changes: UTXOChanges, before: seq<Notification>,
                         index: Index)
    requires router in manager.listeners && manager.Notified(router, changes, before)
    ensures Informed(manager.listeners[router], before, router.outgoing, index,
                     View(index, changes.added, changes.removed))
  {
    hide Delivered, StillMirror, View;
    if manager.listeners[router].propagatesUTXOsChanged {
      NotifiedMirror(manager.listeners[router], changes, before, router.outgoing, index);
    }
  }

  lemma NotInformed(listener: NotificationListener, sent: seq<Notification>, index: Index)
    ensures Informed(listener, sent, sent, index, index)
  {
    assert Since(sent, sent) == [];
  }

  lemma InformedThen(listener: NotificationListener, a: seq<Notification>, b: seq<Notification>, c: seq<Notification>,
                     first: Index, second: Index, third: Index)
    requires Informed(listener, a, b, first, second) && Informed(listener, b, c, second, third)
    ensures Informed(listener, a, c, first, third)
  {
    hide StillMirror;
    if listener.propagatesUTXOsChanged {
      StillMirrorThen(listener, Since(a, b), Since(b, c), first, second, third);
      assert Since(a, c) == Since(a, b) + Since(b, c);
    }
  }

  /** The notification tells, of the subscribed addresses, exactly what came to the index, with its
      entries, and what went from it, each once. So nothing is listed on both sides. */
  ghost predicate TellsDifference(listener: NotificationListener, before: Index, after: Index, n: Notification)
    reads listener
  {
    && Distinct(n.added) && Distinct(n.removed)
    && (forall e :: e in n.added <==>
          var s := Slot(listener.scriptOf(e.address), e.outpoint);
          && IsSubscribed(listener, e.address) && s in after && s !in before && e.entry == Some(after[s]))
    && (forall e :: e in n.removed <==>
          var s := Slot(listener.scriptOf(e.address), e.outpoint);
          && IsSubscribed(listener, e.address) && s in before && s !in after && e.entry == None)
  }

  ghost predicate IsSubscribed(listener: NotificationListener, address: string)
    reads listener
  {
    var k := listener.scriptOf(address);
    k in listener.addresses && listener.addresses[k].address == address
  }

  /** A listener that propagates is sent what tells of the difference, unless that is nothing; another one
      is sent nothing. */
  ghost predicate Announced(listener: NotificationListener, before: seq<Notification>, after: seq<Notification>,
                            indexBefore: Index, indexAfter: Index)
    reads listener
  {
    if listener.propagatesUTXOsChanged then
      exists n :: TellsDifference(listener, indexBefore, indexAfter, n) && after == before + Sent(n)
    else after == before
  }

  lemma ToldDifference(listener: NotificationListener, changes: UTXOChanges, before: Index, after: Index,
                       n: Notification)
    requires IsDifference(before, after, changes.added, changes.removed)
    requires Tells(listener.scriptOf, changes, listener.addresses, n)
    ensures TellsDifference(listener, before, after, n)
  {
    forall e
      ensures e in n.added <==>
        var s := Slot(listener.scriptOf(e.address), e.outpoint);
        && IsSubscribed(listener, e.address) && s in after && s !in before && e.entry == Some(after[s])
      ensures e in n.removed <==>
        var s := Slot(listener.scriptOf(e.address), e.outpoint);
        && IsSubscribed(listener, e.address) && s in before && s !in after && e.entry == None
    {
      var s := Slot(listener.scriptOf(e.address), e.outpoint);
      assert s.bucket in changes.added && s.outpoint in changes.added[s.bucket] <==> s in after && s !in before;
      assert e in n.added <==> IsAdded(listener.scriptOf, changes.added, listener.addresses, e);
      assert e in n.removed <==> IsRemoved(listener.scriptOf, changes.removed, listener.addresses, e);
    }
  }

  lemma NotifiedAnnounced(manager: NotificationManager, router: Router, changes: UTXOChanges, sent: seq<Notification>,
                          before: Index, after: Index)
    requires IsDifference(before, after, changes.added, changes.removed)
    requires router in manager.listeners && manager.Notified(router, changes, sent)
    ensures Announced(manager.listeners[router], sent, router.outgoing, before, after)
  {
    hide Tells, IsDifference, TellsDifference;
    var listener := manager.listeners[router];
    if listener.propagatesUTXOsChanged {
      var n :| Tells(listener.scriptOf, changes, listener.addresses, n) && router.outgoing == sent + Sent(n);
      ToldDifference(listener, changes, before, after, n);
    }
  }

  lemma NothingAnnounced(listener: NotificationListener, sent: seq<Notification>, index: Index)
    ensures Announced(listener, sent, sent, index, index)
  {
    var n := Notification([], []);
    assert TellsDifference(listener, index, index, n) && sent == sent + Sent(n);
  }

  /** What an error of a run means: a database call of it failed, or a route takes nothing. */
  ghost predicate HasCause(database: Database, calls: nat, manager: NotificationManager)
    reads database, manager, manager.listeners.Values, manager.listeners.Keys
  {
    || Reports(true, database.fails, calls, database.calls)
    || (Reports(false, database.fails, calls, database.calls) && RouteRefuses(manager))
  }

  ghost predicate RouteRefuses(manager: NotificationManager)
    reads manager, manager.listeners.Values, manager.listeners.Keys
  {
    exists router :: router in manager.listeners && manager.Refuses(router)
  }

  /** A change of the virtual UTXO set goes into the index and out to the clients. Every subscribed
      client that mirrored the stored index mirrors it again, unless a route takes nothing. It fails only
      when the database or a route does. */
  method UpdateAndNotify(utxoIndex: UTXOIndex, manager: NotificationManager, insertion: BlockInsertionResult,
                         ghost v: VirtualSet)
    returns (err: bool)
    requires utxoIndex.Follows(v) && AppliesByScript(v, insertion.virtualUTXODiff)
    requires Addressable(insertion.virtualParents) && manager.Valid()
    modifies utxoIndex.store, utxoIndex.store.database, manager.listeners.Keys
    ensures utxoIndex.Follows(Resulting(old(utxoIndex.store.database.state.index), v, insertion.virtualUTXODiff))
    ensures utxoIndex.Follows(Applied(v, insertion.virtualUTXODiff)) <==>
      KeepsEntries(old(utxoIndex.store.database.state.index), insertion.virtualUTXODiff.toAdd)
    ensures !err ==> utxoIndex.store.toAdd == map[] && utxoIndex.store.toRemove == map[]
    ensures (err && RouteRefuses(manager)) || forall router :: router in manager.listeners ==>
      Informed(manager.listeners[router], old(router.outgoing), router.outgoing,
               old(utxoIndex.store.database.state.index), utxoIndex.store.database.state.index)
    ensures (err && RouteRefuses(manager)) || forall router :: router in manager.listeners ==>
      Announced(manager.listeners[router], old(router.outgoing), router.outgoing,
                old(utxoIndex.store.database.state.index), utxoIndex.store.database.state.index)
    ensures if err then HasCause(utxoIndex.store.database, old(utxoIndex.store.database.calls), manager)
            else Reports(false, utxoIndex.store.database.fails,
                         old(utxoIndex.store.database.calls), utxoIndex.store.database.calls)
  {
    hide *;
    ghost var index := utxoIndex.store.database.state.index;
    var changes;
    changes, err := utxoIndex.Update(insertion, v);
    if err {
      CauseOfError(utxoIndex.store.database, old(utxoIndex.store.database.calls), manager);
      forall router | router in manager.listeners
        ensures Informed(manager.listeners[router], old(router.outgoing), router.outgoing, index,
                         utxoIndex.store.database.state.index)
        ensures Announced(manager.listeners[router], old(router.outgoing), router.outgoing, index,
                          utxoIndex.store.database.state.index)
      {
        NotInformed(manager.listeners[router], router.outgoing, index);
        NothingAnnounced(manager.listeners[router], router.outgoing, index);
      }
      return;
    }
    ghost var told;
    err, told := manager.NotifyUTXOsChanged(changes);
    CauseOfError(utxoIndex.store.database, old(utxoIndex.store.database.calls), manager);
    if !err {
      forall router | router in manager.listeners
        ensures Informed(manager.listeners[router], old(router.outgoing), router.outgoing, index,
                         utxoIndex.store.database.state.index)
        ensures Announced(manager.listeners[router], old(router.outgoing), router.outgoing, index,
                          utxoIndex.store.database.state.index)
      {
        assert router in told;
        NotifiedInformed(manager, router, changes, old(router.outgoing), index);
        NotifiedAnnounced(manager, router, changes, old(router.outgoing), index,
                          utxoIndex.store.database.state.index);
      }
    }
  }

  lemma CauseOfError(database: Database, calls: nat, manager: NotificationManager)
    ensures Reports(true, database.fails, calls, database.calls) ==> HasCause(database, calls, manager)
    ensures (exists router :: router in manager.listeners && manager.Refuses(router)) ==> RouteRefuses(manager)
    ensures Reports(false, database.fails, calls, database.calls) && RouteRefuses(manager) ==>
      HasCause(database, calls, manager)
  {
  }

  /** A cause found from one count of calls on is one from an earlier count on. */
  lemma CauseSince(database: Database, start: nat, calls: nat, manager: NotificationManager)
    requires Reports(false, database.fails, start, calls) && HasCause(database, calls, manager)
    ensures HasCause(database, start, manager)
  {
    hide AnyFails, RouteRefuses;
    if Reports(true, database.fails, calls, database.calls) {
      ReportsThen(true, database.fails, start, calls, database.calls);
    } else {
      ReportsThen(false, database.fails, start, calls, database.calls);
    }
  }

  ghost function DiffsOf(insertions: seq<BlockInsertionResult>): (diffs: seq<UTXODiff>)
    ensures |diffs| == |insertions| && forall k :: 0 <= k < |diffs| ==> diffs[k] == insertions[k].virtualUTXODiff
  {
    seq(|insertions|, (k: nat) requires k < |insertions| => insertions[k].virtualUTXODiff)
  }

  lemma StoredIndexes(utxoIndex: UTXOIndex, v: VirtualSet)
    requires utxoIndex.Follows(v) && utxoIndex.store.toAdd == map[] && utxoIndex.store.toRemove == map[]
    ensures Indexes(utxoIndex.store.database.state.index, v)
  {
    ViewOfNothing(utxoIndex.store.database.state.index);
  }

  /** One more step of a run: what the index holds follows the changed set. */
  lemma RunStep(utxoIndex: UTXOIndex, v: VirtualSet, w: VirtualSet, diffs: seq<UTXODiff>, k: nat)
    requires SameScripts(v, w) && ApplicableAll(w, diffs) && k < |diffs|
    requires utxoIndex.Follows(StoredAll(v, diffs[..k]))
    requires utxoIndex.store.toAdd == map[] && utxoIndex.store.toRemove == map[]
    ensures AppliesByScript(StoredAll(v, diffs[..k]), diffs[k])
    ensures Resulting(utxoIndex.store.database.state.index, StoredAll(v, diffs[..k]), diffs[k])
         == StoredAll(v, diffs[..k + 1])
  {
    hide Stored, Applied, SameScripts, Applicable, AppliesByScript, Resulting, FollowsWith, Indexes;
    StoredIndexes(utxoIndex, StoredAll(v, diffs[..k]));
    assert forall i :: 0 <= i < k ==> diffs[..k][..i] == diffs[..i];
    assert diffs[..k + 1][..k] == diffs[..k];
    StoredAllFollows(v, w, diffs[..k]);
    StoredFollows(StoredAll(v, diffs[..k]), AppliedAll(w, diffs[..k]), diffs[k]);
    StoredResults(utxoIndex.store.database.state.index, StoredAll(v, diffs[..k]), diffs[k]);
  }

  /** A run of changes of the virtual UTXO set from `w`, of which the index holds `v`. It stops at the
      first error; `done` changes went into the index, the last of them perhaps only staged. The index
      follows them: it has the outpoints and scripts of the set they lead to, and is its index if no
      outpoint ever came back with another entry. Every subscribed client that mirrored the stored index
      at the start mirrors it at the end, unless a route takes nothing. */
  method UpdateAndNotifyAll(utxoIndex: UTXOIndex, manager: NotificationManager, insertions: seq<BlockInsertionResult>,
                            ghost v: VirtualSet, ghost w: VirtualSet)
    returns (err: bool, ghost done: nat)
    requires utxoIndex.Follows(v) && utxoIndex.store.toAdd == map[] && utxoIndex.store.toRemove == map[]
    requires SameScripts(v, w) && ApplicableAll(w, DiffsOf(insertions))
    requires forall k :: 0 <= k < |insertions| ==> Addressable(insertions[k].virtualParents)
    requires manager.Valid()
    modifies utxoIndex.store, utxoIndex.store.database, manager.listeners.Keys
    ensures done <= |insertions| && (!err ==> done == |insertions|) && (err ==> done > 0)
    ensures utxoIndex.Follows(StoredAll(v, DiffsOf(insertions)[..done]))
    ensures SameScripts(StoredAll(v, DiffsOf(insertions)[..done]), AppliedAll(w, DiffsOf(insertions)[..done]))
    ensures v == w && (forall k :: 0 <= k < done ==> ReaddsUnchanged(insertions[k].virtualUTXODiff)) ==>
      utxoIndex.Follows(AppliedAll(w, DiffsOf(insertions)[..done]))
    ensures !err ==> utxoIndex.store.toAdd == map[] && utxoIndex.store.toRemove == map[]
    ensures (err && RouteRefuses(manager)) || forall router :: router in manager.listeners ==>
      Informed(manager.listeners[router], old(router.outgoing), router.outgoing,
               old(utxoIndex.store.database.state.index), utxoIndex.store.database.state.index)
    ensures if err then HasCause(utxoIndex.store.database, old(utxoIndex.store.database.calls), manager)
            else Reports(false, utxoIndex.store.database.fails,
                         old(utxoIndex.store.database.calls), utxoIndex.store.database.calls)
  {
    hide *;
    ghost var index, diffs := utxoIndex.store.database.state.index, DiffsOf(insertions);
    err, done := false, 0;
    RunStarts(v, diffs);
    ReportsNothing(utxoIndex.store.database.fails, utxoIndex.store.database.calls);
    forall router | router in manager.listeners
      ensures Informed(manager.listeners[router], old(router.outgoing), router.outgoing, index, index)
    {
      NotInformed(manager.listeners[router], router.outgoing, index);
    }
    for k := 0 to |insertions|
      invariant done == k && utxoIndex.Follows(StoredAll(v, diffs[..done])) && manager.Valid()
      invariant utxoIndex.store.toAdd == map[] && utxoIndex.store.toRemove == map[] && !err
      invariant Reports(false, utxoIndex.store.database.fails, old(utxoIndex.store.database.calls),
                        utxoIndex.store.database.calls)
      invariant forall router :: router in manager.listeners ==>
        Informed(manager.listeners[router], old(router.outgoing), router.outgoing, index,
                 utxoIndex.store.database.state.index)
    {
      label Before:
      ghost var mid, calls := utxoIndex.store.database.state.index, utxoIndex.store.database.calls;
      RunStep(utxoIndex, v, w, diffs, done);
      err := UpdateAndNotify(utxoIndex, manager, insertions[k], StoredAll(v, diffs[..done]));
      done := done + 1;
      if !(err && RouteRefuses(manager)) {
        forall router | router in manager.listeners
          ensures Informed(manager.listeners[router], old(router.outgoing), router.outgoing, index,
                           utxoIndex.store.database.state.index)
        {
          InformedThen(manager.listeners[router], old(router.outgoing), old@Before(router.outgoing), router.outgoing,
                       index, mid, utxoIndex.store.database.state.index);
        }
      }
      if err {
        CauseSince(utxoIndex.store.database, old(utxoIndex.store.database.calls), calls, manager);
        RunFollows(v, w, insertions, done);
        return;
      }
      ReportsThen(false, utxoIndex.store.database.fails, old(utxoIndex.store.database.calls), calls,
                  utxoIndex.store.database.calls);
    }
    RunFollows(v, w, insertions, done);
  }

  lemma RunFollows(v: VirtualSet, w: VirtualSet, insertions: seq<BlockInsertionResult>, k: nat)
    requires SameScripts(v, w) && ApplicableAll(w, DiffsOf(insertions)) && k <= |insertions|
    ensures var diffs := DiffsOf(insertions)[..k];
      && SameScripts(StoredAll(v, diffs), AppliedAll(w, diffs))
      && (v == w && (forall i :: 0 <= i < k ==> ReaddsUnchanged(insertions[i].virtualUTXODiff)) ==>
            StoredAll(v, diffs) == AppliedAll(w, diffs))
  {
    hide SameScripts, Applicable, ReaddsUnchanged, StoredAll, AppliedAll;
    var diffs := DiffsOf(insertions);
    assert forall i :: 0 <= i < k ==> diffs[..k][..i] == diffs[..i];
    StoredAllFollows(v, w, diffs[..k]);
  }

  lemma RunStarts(v: VirtualSet, diffs: seq<UTXODiff>)
    ensures StoredAll(v, diffs[..0]) == v
  {
  }

  // ----- a client from the start -----

  /** The list tells of the UTXOs of the set `v` that the addresses are paid by, and of nothing else. */
  ghost predicate AreUtxosOf(asked: seq<string>, pays: string -> Option<ScriptPublicKey>, v: VirtualSet,
                             list: seq<AddressEntry>) {
    forall e :: e in list <==> e.address in asked && IsUtxoOf(pays, v, e)
  }

  ghost predicate IsUtxoOf(pays: string -> Option<ScriptPublicKey>, v: VirtualSet, e: AddressEntry) {
    && e.outpoint in v
    && pays(e.address) == Some(v[e.outpoint].scriptPublicKey)
    && e.entry == Some(v[e.outpoint])
  }

  /** Answers with the UTXOs of addresses, or with None if one of them cannot be decoded. It fails only
      while changes are staged and when the database does. */
  method GetUTXOsByAddresses(utxoIndex: UTXOIndex, asked: seq<string>, pays: string -> Option<ScriptPublicKey>,
                             ghost v: VirtualSet)
    returns (answer: Option<seq<AddressEntry>>, err: bool)
    requires utxoIndex.Follows(v)
    modifies utxoIndex.store.database`calls
    ensures !err ==> (answer.None? <==> exists a :: a in asked && pays(a).None?)
    ensures !err && answer.Some? ==> AreUtxosOf(asked, pays, v, answer.value)
    ensures err ==>
      utxoIndex.store.IsAnythingStaged()
      || Reports(true, utxoIndex.store.database.fails,
                 old(utxoIndex.store.database.calls), utxoIndex.store.database.calls)
  {
    hide *;
    ghost var fails, start := utxoIndex.store.database.fails, utxoIndex.store.database.calls;
    ReportsNothing(fails, start);
    NobodyAsked(asked, pays, v);
    var entries := [];
    for k := 0 to |asked|
      invariant utxoIndex.Follows(v) && AreUtxosOf(asked[..k], pays, v, entries)
      invariant forall a :: a in asked[..k] ==> pays(a).Some?
      invariant utxoIndex.store.IsAnythingStaged() || Reports(false, fails, start, utxoIndex.store.database.calls)
    {
      if pays(asked[k]).None? {
        return None, false;
      }
      var pairs;
      ghost var before := utxoIndex.store.database.calls;
      pairs, err := utxoIndex.UTXOs(pays(asked[k]).value, v);
      if !utxoIndex.store.IsAnythingStaged() {
        ReportsThen(err, fails, start, before, utxoIndex.store.database.calls);
      }
      if err {
        return None, true;
      }
      var more := ConvertPairs(asked[k], pairs);
      UtxosOfOneMore(asked, k, pays, v, pairs, entries, more);
      entries := entries + more;
    }
    assert asked[..|asked|] == asked;
    return Some(entries), false;
  }

  lemma NobodyAsked(asked: seq<string>, pays: string -> Option<ScriptPublicKey>, v: VirtualSet)
    ensures AreUtxosOf(asked[..0], pays, v, [])
  {
  }

  lemma UtxosOfOneMore(asked: seq<string>, k: nat, pays: string -> Option<ScriptPublicKey>, v: VirtualSet,
                       pairs: map<Outpoint, UTXOEntry>, list: seq<AddressEntry>, more: seq<AddressEntry>)
    requires k < |asked| && pays(asked[k]).Some? && AreUtxosOf(asked[..k], pays, v, list)
    requires pairs == map op | op in v && v[op].scriptPublicKey == pays(asked[k]).value :: v[op]
    requires ArePairs(asked[k], pairs, more)
    ensures AreUtxosOf(asked[..k + 1], pays, v, list + more)
    ensures forall a :: a in asked[..k + 1] <==> a in asked[..k] || a == asked[k]
  {
    assert asked[..k + 1] == asked[..k] + [asked[k]];
  }

  /** The client asks for the addresses it is subscribed to, each under its own script. */
  ghost predicate AsksFor(scriptOf: string -> KeyString, pays: string -> Option<ScriptPublicKey>, asked: seq<string>,
                          addresses: Addresses) {
    && (forall k :: k in addresses ==> addresses[k].address in asked)
    && (forall a :: a in asked ==> scriptOf(a) in addresses && addresses[scriptOf(a)].address == a)
    && (forall a :: a in asked ==> pays(a).Some? && scriptOf(a) == ConvertScriptPublicKeyToString(pays(a).value))
  }

  /** The client knows exactly the UTXOs of the set that pay to the addresses. */
  ghost predicate Knows(client: Client, asked: seq<string>, pays: string -> Option<ScriptPublicKey>, v: VirtualSet) {
    forall a: string, op: Outpoint ::
      Known(client, a, op)
      == if a in asked && op in v && pays(a) == Some(v[op].scriptPublicKey) then Some(v[op]) else None
  }

  /** A client that took over the answer knows exactly the UTXOs of its addresses. */
  lemma AnswerKnown(asked: seq<string>, pays: string -> Option<ScriptPublicKey>, v: VirtualSet,
                    answer: seq<AddressEntry>)
    requires AreUtxosOf(asked, pays, v, answer)
    ensures Knows(LearnAll(map[], answer), asked, pays, v)
  {
    hide LearnAll;
    forall a: string, op: Outpoint
      ensures Known(LearnAll(map[], answer), a, op)
           == if a in asked && op in v && pays(a) == Some(v[op].scriptPublicKey) then Some(v[op]) else None
    {
      if a in asked && op in v && pays(a) == Some(v[op].scriptPublicKey) {
        var e := AddressEntry(a, op, Some(v[op]));
        assert IsUtxoOf(pays, v, e);
        LearnAllAt(map[], answer, a, op, e);
      } else {
        LearnNothing(map[], answer, a, op);
      }
    }
  }

  /** To mirror the index at the subscribed addresses is to know their UTXOs. */
  lemma MirrorsExactly(scriptOf: string -> KeyString, pays: string -> Option<ScriptPublicKey>, asked: seq<string>,
                       addresses: Addresses, client: Client, index: Index, v: VirtualSet)
    requires Subscribed(scriptOf, addresses) && AsksFor(scriptOf, pays, asked, addresses) && Indexes(index, v)
    ensures Mirrors(scriptOf, client, index, addresses) <==> Knows(client, asked, pays, v)
  {
    hide Indexes;
    forall a: string, op: Outpoint
      ensures Indexed(index, addresses, scriptOf(a), a, op)
           == if a in asked && op in v && pays(a) == Some(v[op].scriptPublicKey) then Some(v[op]) else None
    {
      if a in asked {
        ScriptOfSlot(index, v, pays(a).value, op);
        if op in v {
          SlotEntry(index, v, op);
        }
      }
    }
  }

  lemma SlotEntry(index: Index, v: VirtualSet, op: Outpoint)
    requires Indexes(index, v) && op in v
    ensures SlotOf(op, v[op]) in index && index[SlotOf(op, v[op])] == v[op]
  {
  }

  /** A client that asked for the UTXOs of its subscribed addresses and has replayed whatever it was
      sent since knows exactly the UTXOs of these addresses. */
  lemma SubscriberKnows(listener: NotificationListener, pays: string -> Option<ScriptPublicKey>, asked: seq<string>,
                        answer: seq<AddressEntry>, sent: seq<Notification>,
                        before: Index, v: VirtualSet, after: Index, w: VirtualSet)
    requires listener.Valid() && AsksFor(listener.scriptOf, pays, asked, listener.addresses)
    requires Indexes(before, v) && AreUtxosOf(asked, pays, v, answer)
    requires Indexes(after, w) && StillMirror(listener, sent, before, after)
    ensures Knows(ReplayAll(LearnAll(map[], answer), sent), asked, pays, w)
  {
    hide Indexes, AreUtxosOf, AsksFor, Knows, Mirrors, LearnAll, ReplayAll;
    var client := LearnAll(map[], answer);
    AnswerKnown(asked, pays, v, answer);
    MirrorsExactly(listener.scriptOf, pays, asked, listener.addresses, client, before, v);
    MirrorsExactly(listener.scriptOf, pays, asked, listener.addresses, ReplayAll(client, sent), after, w);
  }
}
