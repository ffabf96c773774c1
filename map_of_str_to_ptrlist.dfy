/**
 * c++/map-of-str-to-ptrlist.cpp: a global NULL-terminated array of
 * Host_user pointers, indexed into a map from user id to the list of
 * users with that id, and an allocator that tags each allocation with a
 * tracking key. The map is a value here; the users are objects, so a
 * list holds the very users of the array, not copies.
 */
module NameToUsers {
  import opened Wrappers

  /** SIZE_MAX for a 64-bit size_t. */
  const SizeMax := 0xFFFF_FFFF_FFFF_FFFF

  // ---------------------------------------------------------------
  // Tracking_allocator
  // ---------------------------------------------------------------

  /** Tracking_allocator<T>: only its key, and the size of T it allocates. */
  datatype TrackingAllocator = TrackingAllocator(key: nat, elemSize: nat)

  /** max_size(): SIZE_MAX / sizeof(T), the most elements whose bytes a size_t can count. */
  function MaxSize(a: TrackingAllocator): (r: nat)
    requires a.elemSize > 0
    ensures r * a.elemSize <= SizeMax < (r + 1) * a.elemSize
  {
    SizeMax / a.elemSize
  }

  /** n is within max_size() exactly when n * sizeof(T) does not overflow a size_t. */
  lemma WithinMaxSize(a: TrackingAllocator, n: nat)
    requires a.elemSize > 0
    ensures n <= MaxSize(a) <==> n * a.elemSize <= SizeMax
  {
    var m := MaxSize(a);
    if n <= m {
      assert n * a.elemSize <= m * a.elemSize by {
        MulMonotone(n, m, a.elemSize);
      }
    } else {
      assert (m + 1) * a.elemSize <= n * a.elemSize by {
        MulMonotone(m + 1, n, a.elemSize);
      }
    }
  }

  lemma MulMonotone(x: nat, y: nat, k: nat)
    requires x <= y
    ensures x * k <= y * k
  {
  }

  /** What allocate hands back. */
  datatype Allocation =
    | NullPointer
    | BadAlloc
    | Block(key: nat, bytes: nat)

  /**
   * allocate(n): NULL for n == 0; bad_alloc when n is above max_size()
   * or when tracking_malloc (whose success is mallocOk) returns NULL;
   * otherwise a block of n * sizeof(T) bytes tracked under the key.
   */
  function Allocate(a: TrackingAllocator, n: nat, mallocOk: bool): (r: Allocation)
    requires a.elemSize > 0
    ensures r == NullPointer <==> n == 0
    ensures r == BadAlloc <==> n > 0 && (n > MaxSize(a) || !mallocOk)
    ensures r.Block? ==> r.key == a.key && r.bytes == n * a.elemSize && r.bytes <= SizeMax
  {
    if n == 0 then NullPointer
    else if n > MaxSize(a) then BadAlloc
    else
      WithinMaxSize(a, n);
      if !mallocOk then BadAlloc
      else Block(a.key, n * a.elemSize)
  }

  /** The request throws bad_alloc before malloc exactly when its byte count would overflow. */
  lemma AllocateRefusesOverflow(a: TrackingAllocator, n: nat)
    requires a.elemSize > 0 && n > 0
    ensures Allocate(a, n, true) == BadAlloc <==> n * a.elemSize > SizeMax
  {
    WithinMaxSize(a, n);
  }

  /** The converting constructor from Tracking_allocator<U>: same key, new element size. */
  function Rebind(a: TrackingAllocator, elemSize: nat): (r: TrackingAllocator)
    ensures r.key == a.key && r.elemSize == elemSize
  {
    TrackingAllocator(a.key, elemSize)
  }

  /** operator== and operator!=: allocators compare by their key alone. */
  predicate SameAllocator(a1: TrackingAllocator, a2: TrackingAllocator)
  {
    a1.key == a2.key
  }

  /**
   * operator== looks at the key only: two allocators with one key are
   * equal whatever they allocate, a rebound copy equals the original, and
   * it is an equivalence.
   */
  lemma SameAllocatorIsKeyEquality(a1: TrackingAllocator, a2: TrackingAllocator, a3: TrackingAllocator, elemSize: nat)
    ensures SameAllocator(a1, a2) <==> a1.key == a2.key
    ensures SameAllocator(a1, Rebind(a1, elemSize))
    ensures SameAllocator(a1, a2) ==> SameAllocator(a2, a1)
    ensures SameAllocator(a1, a2) && SameAllocator(a2, a3) ==> SameAllocator(a1, a3)
  {
  }

  // ---------------------------------------------------------------
  // Host_user and the id map
  // ---------------------------------------------------------------

  /** Host_user: copies of its id and host, fixed at construction. */
  class HostUser {
    const id: string
    const host: string

    /** Host_user(id, host): a null id becomes "", a null host "localhost". */
    constructor(id0: Option<string>, host0: Option<string>)
      ensures id0.Some? ==> id == id0.value
      ensures id0.None? ==> id == ""
      ensures host0.Some? ==> host == host0.value
      ensures host0.None? ==> host == "localhost"
    {
      id := if id0.Some? then id0.value else "";
      host := if host0.Some? then host0.value else "localhost";
    }
  }

  /** The map build_name_to_users builds from users: each user appended under its id, in order. */
  function Grouped(users: seq<HostUser>): map<string, seq<HostUser>>
  {
    if users == [] then map[]
    else
      var m := Grouped(users[..|users| - 1]);
      var hu := users[|users| - 1];
      m[hu.id := (if hu.id in m then m[hu.id] else []) + [hu]]
  }

  /** The users whose id is name, in array order. */
  function WithId(users: seq<HostUser>, name: string): (r: seq<HostUser>)
    ensures |r| <= |users|
    ensures forall k :: 0 <= k < |r| ==> r[k].id == name
  {
    if users == [] then []
    else
      var rest := WithId(users[..|users| - 1], name);
      if users[|users| - 1].id == name then rest + [users[|users| - 1]] else rest
  }

  /** The ids in users. */
  function Ids(users: seq<HostUser>): (r: seq<string>)
    ensures |r| == |users|
  {
    if users == [] then [] else Ids(users[..|users| - 1]) + [users[|users| - 1].id]
  }

  /**
   * The keys of the map are exactly the ids of the users, and the list
   * under each key is the users with that id in array order.
   */
  lemma {:induction false} GroupedByIds(users: seq<HostUser>)
    ensures forall name :: name in Grouped(users) <==> name in Ids(users)
    ensures forall name :: name in Grouped(users) ==> Grouped(users)[name] == WithId(users, name)
  {
    if users != [] {
      var n := |users| - 1;
      GroupedByIds(users[..n]);
      var prev := Grouped(users[..n]);
      forall name
        ensures name in Grouped(users) <==> name in Ids(users)
      {
        assert Ids(users) == Ids(users[..n]) + [users[n].id];
      }
      forall name | name in Grouped(users)
        ensures Grouped(users)[name] == WithId(users, name)
      {
        if name == users[n].id && name !in prev {
          WithIdAbsent(users[..n], name);
        }
      }
    }
  }

  /**
   * Every user appears in exactly one list: the list of its own id holds
   * it, and the list of any other id does not.
   */
  lemma EachUserInOneList(users: seq<HostUser>, i: nat, name: string)
    requires i < |users|
    ensures users[i].id in Grouped(users) && users[i] in Grouped(users)[users[i].id]
    ensures name in Grouped(users) && name != users[i].id ==> users[i] !in Grouped(users)[name]
  {
    GroupedByIds(users);
    IdsAt(users, i);
    WithIdHolds(users, i);
  }

  lemma {:induction false} IdsAt(users: seq<HostUser>, i: nat)
    requires i < |users|
    ensures Ids(users)[i] == users[i].id
  {
    if i < |users| - 1 {
      IdsAt(users[..|users| - 1], i);
    }
  }

  lemma {:induction false} WithIdHolds(users: seq<HostUser>, i: nat)
    requires i < |users|
    ensures users[i] in WithId(users, users[i].id)
  {
    var n := |users| - 1;
    if i < n {
      WithIdHolds(users[..n], i);
    }
  }

  /** The length of the list under name is the number of times name occurs among the ids. */
  lemma {:induction false} WithIdCount(users: seq<HostUser>, name: string)
    ensures |WithId(users, name)| == multiset(Ids(users))[name]
  {
    if users != [] {
      var n := |users| - 1;
      WithIdCount(users[..n], name);
      assert Ids(users) == Ids(users[..n]) + [users[n].id];
    }
  }

  /** The program's globals: all_users (None for nullptr) and name_to_users. */
  class Registry {
    var allUsers: Option<seq<HostUser>>
    var nameToUsers: map<string, seq<HostUser>>

    constructor()
      ensures allUsers == None && nameToUsers == map[]
    {
      allUsers := None;
      nameToUsers := map[];
    }

    /**
     * build_name_to_users: nothing when all_users is null; otherwise the
     * map is cleared and each user, up to the terminating NULL, is
     * appended to the list under its id.
     */
    method BuildNameToUsers()
      modifies this
      ensures allUsers == old(allUsers)
      ensures allUsers.None? ==> nameToUsers == old(nameToUsers)
      ensures allUsers.Some? ==> nameToUsers == Grouped(allUsers.value)
    {
      if allUsers.None? {
        return;
      }
      var users := allUsers.value;
      nameToUsers := map[];
      for i := 0 to |users|
        invariant allUsers == old(allUsers)
        invariant nameToUsers == Grouped(users[..i])
      {
        var hu := users[i];
        var name := hu.id;
        var list := if name in nameToUsers then nameToUsers[name] else [];
        nameToUsers := nameToUsers[name := list + [hu]];
        assert users[..i + 1][..i] == users[..i];
      }
      assert users[..|users|] == users;
    }

    /**
     * clear_all_users: nothing when all_users is null; otherwise the map
     * is cleared, the users are freed and all_users becomes null.
     */
    method ClearAllUsers()
      modifies this
      ensures old(allUsers).None? ==> allUsers == None && nameToUsers == old(nameToUsers)
      ensures old(allUsers).Some? ==> allUsers == None && nameToUsers == map[]
    {
      if allUsers.None? {
        return;
      }
      nameToUsers := map[];
      allUsers := None;
    }

    /**
     * load_all_users: the fifteen sample users, then the map. Six of them
     * are "eve" and two "alice", each list in array order.
     */
    method LoadAllUsers()
      modifies this
      ensures allUsers.Some? && |allUsers.value| == 15
      ensures nameToUsers == Grouped(allUsers.value)
      ensures "eve" in nameToUsers && |nameToUsers["eve"]| == 6
      ensures "alice" in nameToUsers && |nameToUsers["alice"]| == 2
      ensures nameToUsers["eve"][0].host == "localhost"
    {
      ClearAllUsers();
      var alices, others, eves, rest := NewSampleUsers();
      var users := alices + others + eves + rest;
      allUsers := Some(users);
      BuildNameToUsers();
      SampleLists(alices, others, eves, rest);
    }
  }

  /** The fifteen users load_all_users creates, in four runs by id. */
  method NewSampleUsers() returns (alices: seq<HostUser>, others: seq<HostUser>, eves: seq<HostUser>, rest: seq<HostUser>)
    ensures |alices| == 2 && |eves| == 6 && |others| == 3 && |rest| == 4
    ensures forall u :: u in alices ==> u.id == "alice"
    ensures forall u :: u in eves ==> u.id == "eve"
    ensures forall u :: u in others ==> u.id != "alice" && u.id != "eve"
    ensures forall u :: u in rest ==> u.id != "alice" && u.id != "eve"
    ensures eves[0].host == "localhost"
  {
    alices := NewAlices();
    others := NewOthers();
    eves := NewEves();
    rest := NewRest();
  }

  /** all_users[0] and [1]. */
  method NewAlices() returns (users: seq<HostUser>)
    ensures |users| == 2 && forall u :: u in users ==> u.id == "alice"
  {
    var u0 := new HostUser(Some("alice"), Some("10.0.0.1"));
    var u1 := new HostUser(Some("alice"), Some("10.1.2.3"));
    users := [u0, u1];
  }

  /** all_users[2] to [4]. */
  method NewOthers() returns (users: seq<HostUser>)
    ensures |users| == 3 && forall u :: u in users ==> u.id != "alice" && u.id != "eve"
  {
    var u2 := new HostUser(Some("bob"), Some("10.0.0.2"));
    var u3 := new HostUser(Some("chris"), Some("10.0.1.1"));
    var u4 := new HostUser(Some("dirk"), Some("10.0.1.2"));
    users := [u2, u3, u4];
    assert "bob" != "alice" && "chris" != "alice" && "dirk" != "alice";
    assert "bob" != "eve" && "chris" != "eve" && "dirk" != "eve";
  }

  /** all_users[5] to [10]; the first has a null host. */
  method NewEves() returns (users: seq<HostUser>)
    ensures |users| == 6 && forall u :: u in users ==> u.id == "eve"
    ensures users[0].host == "localhost"
  {
    var u5 := new HostUser(Some("eve"), None);
    var u6 := new HostUser(Some("eve"), Some("10.0.0.2"));
    var u7 := new HostUser(Some("eve"), Some("10.0.1.2"));
    var u8 := new HostUser(Some("eve"), Some("10.0.2.2"));
    var u9 := new HostUser(Some("eve"), Some("10.0.3.2"));
    var u10 := new HostUser(Some("eve"), Some("10.8.0.2"));
    users := [u5, u6, u7, u8, u9, u10];
  }

  /** all_users[11] to [14]. */
  method NewRest() returns (users: seq<HostUser>)
    ensures |users| == 4 && forall u :: u in users ==> u.id != "alice" && u.id != "eve"
  {
    var u11 := new HostUser(Some("frances"), Some("10.0.1.2"));
    var u12 := new HostUser(Some("glen"), Some("10.8.0.7"));
    var u13 := new HostUser(Some("harley"), Some("10.8.0.7"));
    var u14 := new HostUser(Some("ishta"), Some("10.8.0.7"));
    users := [u11, u12, u13, u14];
    assert "frances" != "alice" && "glen" != "alice" && "harley" != "alice" && "ishta" != "alice";
    assert "frances" != "eve" && "glen" != "eve" && "harley" != "eve" && "ishta" != "eve";
  }

  /**
   * The sample users in their four runs: two "alice", three others, six
   * "eve" (the first without a host) and four others. The map gives
   * "eve" the six and "alice" the two, in array order.
   */
  lemma SampleLists(alices: seq<HostUser>, others: seq<HostUser>, eves: seq<HostUser>, rest: seq<HostUser>)
    requires |alices| == 2 && |eves| == 6
    requires forall u :: u in alices ==> u.id == "alice"
    requires forall u :: u in eves ==> u.id == "eve"
    requires forall u :: u in others ==> u.id != "alice" && u.id != "eve"
    requires forall u :: u in rest ==> u.id != "alice" && u.id != "eve"
    requires eves[0].host == "localhost"
    ensures var g := Grouped(alices + others + eves + rest);
      "eve" in g && "alice" in g && g["eve"] == eves && g["alice"] == alices && g["eve"][0].host == "localhost"
  {
    var users := alices + others + eves + rest;
    GroupedByIds(users);
    EachUserInOneList(users, 0, "");
    EachUserInOneList(users, |alices| + |others|, "");
    WithIdAppend(alices + others + eves, rest, "eve");
    WithIdAppend(alices + others, eves, "eve");
    WithIdAppend(alices, others, "eve");
    WithIdNone(alices, "eve");
    WithIdNone(others, "eve");
    WithIdAll(eves, "eve");
    WithIdNone(rest, "eve");
    WithIdAppend(alices + others + eves, rest, "alice");
    WithIdAppend(alices + others, eves, "alice");
    WithIdAppend(alices, others, "alice");
    WithIdAll(alices, "alice");
    WithIdNone(others, "alice");
    WithIdNone(eves, "alice");
    WithIdNone(rest, "alice");
  }

  /** The list for name over a + b is the list over a followed by the list over b. */
  lemma {:induction false} WithIdAppend(a: seq<HostUser>, b: seq<HostUser>, name: string)
    ensures WithId(a + b, name) == WithId(a, name) + WithId(b, name)
  {
    if b == [] {
      assert a + b == a;
    } else {
      var n, ab := |b| - 1, a + b;
      WithIdAppend(a, b[..n], name);
      assert ab[..|ab| - 1] == a + b[..n] && ab[|ab| - 1] == b[n];
      var tail := if b[n].id == name then [b[n]] else [];
      assert WithId(ab, name) == WithId(a + b[..n], name) + tail;
      assert WithId(b, name) == WithId(b[..n], name) + tail;
    }
  }

  /** When every user has id name, the list for name is all of them. */
  lemma {:induction false} WithIdAll(users: seq<HostUser>, name: string)
    requires forall u :: u in users ==> u.id == name
    ensures WithId(users, name) == users
  {
    if users != [] {
      WithIdAll(users[..|users| - 1], name);
    }
  }

  /** When no user has id name, the list for name is empty. */
  lemma {:induction false} WithIdNone(users: seq<HostUser>, name: string)
    requires forall u :: u in users ==> u.id != name
    ensures WithId(users, name) == []
  {
    if users != [] {
      WithIdNone(users[..|users| - 1], name);
    }
  }

  /** An id that does not occur has an empty list. */
  lemma WithIdAbsent(users: seq<HostUser>, name: string)
    requires name !in Ids(users)
    ensures WithId(users, name) == []
  {
    forall u | u in users
      ensures u.id != name
    {
      var k :| 0 <= k < |users| && users[k] == u;
      IdsAt(users, k);
    }
    WithIdNone(users, name);
  }
}
