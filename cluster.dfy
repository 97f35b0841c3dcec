/** The cluster's node-set bookkeeping: the seed hosts, the copy-on-write
    node array with its garbage list, the rule that schedules nodes for
    removal, the counters each tend updates, the stop rule of the start-up
    tends, and the settings a cluster is created with. */
module Clusters {
  import opened Wrappers

  const TWO32: nat := 0x1_0000_0000

  /** A host to seed the cluster from: its name and port. */
  datatype Seed = Seed(name: string, port: int)

  /** A host slot of the configuration; a null address ends the list. */
  datatype Host = Host(addr: Option<string>, port: int)

  /** The configuration fields a cluster is created from; an empty user or
      password means none. The hosts are the configuration's fixed array
      of host slots. */
  datatype Config = Config(user: string, password: string, tenderInterval: nat,
                           maxThreads: nat, connTimeoutMs: nat, hosts: seq<Host>)

  /** A server node as the tend thread sees it. Node identity is pointer
      identity. */
  class Node {
    const name: string
    var active: bool
    var failures: nat
    var friends: nat
  }

  /** What the garbage list holds until the next tend releases it: a
      replaced node array or a removed node. */
  datatype GcItem = ReleaseNodes(array: seq<Node>) | ReleaseNode(node: Node)

  /** No node appears twice. */
  predicate Distinct(xs: seq<Node>)
  {
    forall i, j :: 0 <= i < j < |xs| ==> xs[i] != xs[j]
  }

  /** Appending nodes none of which is already present keeps the nodes
      distinct. */
  lemma DistinctAppend(xs: seq<Node>, ys: seq<Node>)
    requires Distinct(xs) && Distinct(ys)
    requires forall n :: n in ys ==> n !in xs
    ensures Distinct(xs + ys)
  {
    var zs := xs + ys;
    forall i, j | 0 <= i < j < |zs|
      ensures zs[i] != zs[j]
    {
      if j >= |xs| {
        assert zs[j] == ys[j - |xs|];
        if i < |xs| {
          assert zs[i] in xs;
        } else {
          assert zs[i] == ys[i - |xs|];
        }
      }
    }
  }

  /** The 32-bit unsigned increment of a counter. */
  function Inc32(x: nat): (r: nat)
    requires x < TWO32
    ensures r < TWO32
    ensures x < TWO32 - 1 ==> r == x + 1
    ensures x == TWO32 - 1 ==> r == 0
  {
    (x + 1) % TWO32
  }

  // ---------------------------------------------------------------------
  // Seeds
  // ---------------------------------------------------------------------

  /** Some seed has this name and port. */
  predicate HasSeed(seeds: seq<Seed>, name: string, port: int)
  {
    exists i :: 0 <= i < |seeds| && seeds[i].port == port && seeds[i].name == name
  }

  /** seeds_size: the host slots up to the first null address, and no more
      than the array holds. */
  method SeedsSize(hosts: seq<Host>) returns (size: nat)
    ensures size <= |hosts|
    ensures forall j :: 0 <= j < size ==> hosts[j].addr.Some?
    ensures size < |hosts| ==> hosts[size].addr.None?
  {
    size := 0;
    while size < |hosts| && hosts[size].addr.Some?
      invariant size <= |hosts|
      invariant forall j :: 0 <= j < size ==> hosts[j].addr.Some?
    {
      size := size + 1;
    }
  }

  /** seeds_create: a seed for each of the first size host slots, in
      order. */
  method SeedsCreate(hosts: seq<Host>, size: nat) returns (seeds: seq<Seed>)
    requires size <= |hosts|
    requires forall j :: 0 <= j < size ==> hosts[j].addr.Some?
    ensures |seeds| == size
    ensures forall j :: 0 <= j < size ==> seeds[j] == Seed(hosts[j].addr.value, hosts[j].port)
  {
    seeds := [];
    var i := 0;
    while i < size
      invariant i <= size && |seeds| == i
      invariant forall j :: 0 <= j < i ==> seeds[j] == Seed(hosts[j].addr.value, hosts[j].port)
    {
      seeds := seeds + [Seed(hosts[i].addr.value, hosts[i].port)];
      i := i + 1;
    }
  }

  /** Adding seeds keeps the old ones findable and makes the new ones
      findable, and nothing else. */
  lemma {:induction false} AddedSeedsFound(seeds: seq<Seed>, added: seq<Seed>, name: string, port: int)
    ensures HasSeed(seeds + added, name, port) <==> HasSeed(seeds, name, port) || HasSeed(added, name, port)
  {
    var all := seeds + added;
    if HasSeed(all, name, port) {
      var i :| 0 <= i < |all| && all[i].port == port && all[i].name == name;
      if i >= |seeds| {
        assert added[i - |seeds|] == all[i];
      }
    }
    if HasSeed(seeds, name, port) {
      var i :| 0 <= i < |seeds| && seeds[i].port == port && seeds[i].name == name;
      assert all[i] == seeds[i];
    }
    if HasSeed(added, name, port) {
      var i :| 0 <= i < |added| && added[i].port == port && added[i].name == name;
      assert all[|seeds| + i] == added[i];
    }
  }

  /** The addresses not already seeds, in order; an address listed twice
      and not a seed is kept twice. */
  function NewSeeds(seeds: seq<Seed>, addresses: seq<Seed>): (r: seq<Seed>)
    ensures |r| <= |addresses|
  {
    if |addresses| == 0 then []
    else
      var last := addresses[|addresses| - 1];
      NewSeeds(seeds, addresses[..|addresses| - 1])
      + (if HasSeed(seeds, last.name, last.port) then [] else [last])
  }

  /** Every node address ends up a seed: an old seed or one of the added
      ones. */
  lemma {:induction false} NewSeedsCover(seeds: seq<Seed>, addresses: seq<Seed>)
    ensures forall k :: 0 <= k < |addresses| ==>
              HasSeed(seeds + NewSeeds(seeds, addresses), addresses[k].name, addresses[k].port)
    ensures forall k :: 0 <= k < |NewSeeds(seeds, addresses)| ==>
              !HasSeed(seeds, NewSeeds(seeds, addresses)[k].name, NewSeeds(seeds, addresses)[k].port)
    decreases |addresses|
  {
    if |addresses| > 0 {
      var init, last := addresses[..|addresses| - 1], addresses[|addresses| - 1];
      var added := NewSeeds(seeds, addresses);
      var before := NewSeeds(seeds, init);
      NewSeedsCover(seeds, init);
      assert added[..|before|] == before;
      forall k | 0 <= k < |addresses|
        ensures HasSeed(seeds + added, addresses[k].name, addresses[k].port)
      {
        var a := addresses[k];
        AddedSeedsFound(seeds, added, a.name, a.port);
        if k < |init| {
          assert a == init[k];
          AddedSeedsFound(seeds, before, a.name, a.port);
          if !HasSeed(seeds, a.name, a.port) {
            var i :| 0 <= i < |before| && before[i].port == a.port && before[i].name == a.name;
            assert added[i] == before[i];
          }
        } else if !HasSeed(seeds, a.name, a.port) {
          assert added[|added| - 1] == last;
        }
      }
    }
  }

  // ---------------------------------------------------------------------
  // The node arrays
  // ---------------------------------------------------------------------

  /** as_cluster_find_node_by_reference: pointer equality, not names. */
  method FindNodeByReference(list: seq<Node>, filter: Node) returns (found: bool)
    ensures found <==> filter in list
  {
    var i := 0;
    while i < |list|
      invariant i <= |list|
      invariant filter !in list[..i]
    {
      if list[i] == filter {
        return true;
      }
      i := i + 1;
    }
    assert list[..i] == list;
    return false;
  }

  /** The nodes of xs that are not in r, in order. */
  function Kept(xs: seq<Node>, r: seq<Node>): seq<Node>
  {
    if |xs| == 0 then []
    else
      var last := xs[|xs| - 1];
      Kept(xs[..|xs| - 1], r) + (if last in r then [] else [last])
  }

  /** The garbage items for the nodes of xs that are in r, in order. */
  function Released(xs: seq<Node>, r: seq<Node>): seq<GcItem>
  {
    if |xs| == 0 then []
    else
      var last := xs[|xs| - 1];
      Released(xs[..|xs| - 1], r) + (if last in r then [ReleaseNode(last)] else [])
  }

  /** Exactly the nodes not scheduled survive. */
  lemma {:induction false} KeptMembers(xs: seq<Node>, r: seq<Node>)
    ensures forall n :: n in Kept(xs, r) <==> n in xs && n !in r
    decreases |xs|
  {
    if |xs| > 0 {
      var init := xs[..|xs| - 1];
      KeptMembers(init, r);
      assert xs == init + [xs[|xs| - 1]];
    }
  }

  /** The survivors keep their order and are pairwise distinct when the
      nodes were. */
  lemma {:induction false} KeptDistinct(xs: seq<Node>, r: seq<Node>)
    requires Distinct(xs)
    ensures Distinct(Kept(xs, r))
    decreases |xs|
  {
    if |xs| > 0 {
      var init, last := xs[..|xs| - 1], xs[|xs| - 1];
      assert Distinct(init);
      KeptDistinct(init, r);
      KeptMembers(init, r);
      assert last !in init;
    }
  }

  /** Removing nothing keeps everything. */
  lemma {:induction false} KeptAll(xs: seq<Node>)
    ensures Kept(xs, []) == xs
    decreases |xs|
  {
    if |xs| > 0 {
      KeptAll(xs[..|xs| - 1]);
      assert xs[..|xs| - 1] + [xs[|xs| - 1]] == xs;
    }
  }

  /** A single node removed from the front of the array it shares with
      the seeded nodes leaves exactly the seeded nodes. */
  lemma {:induction false} ReseedKeepsSeeded(n: Node, seeded: seq<Node>)
    requires n !in seeded
    ensures Kept([n] + seeded, [n]) == seeded
    decreases |seeded|
  {
    if |seeded| == 0 {
      assert Kept([n], [n]) == Kept([], [n]);
    } else {
      var init := seeded[..|seeded| - 1];
      ReseedKeepsSeeded(n, init);
      assert ([n] + seeded)[..|seeded|] == [n] + init;
      assert seeded == init + [seeded[|seeded| - 1]];
    }
  }

  /** Of that array, only the removed node goes on the garbage list. */
  lemma {:induction false} ReleasedSeeded(n: Node, seeded: seq<Node>)
    requires n !in seeded
    ensures Released([n] + seeded, [n]) == [ReleaseNode(n)]
    decreases |seeded|
  {
    if |seeded| == 0 {
      assert Released([n], [n]) == Released([], [n]) + [ReleaseNode(n)];
    } else {
      var init := seeded[..|seeded| - 1];
      ReleasedSeeded(n, init);
      assert ([n] + seeded)[..|seeded|] == [n] + init;
    }
  }

  /** The set of the nodes of a sequence. */
  function Members(xs: seq<Node>): set<Node>
  {
    set n | n in xs
  }

  /** A sequence without repeats has as many members as entries. */
  lemma {:induction false} DistinctMembers(xs: seq<Node>)
    requires Distinct(xs)
    ensures |Members(xs)| == |xs|
    decreases |xs|
  {
    if |xs| > 0 {
      var init, last := xs[..|xs| - 1], xs[|xs| - 1];
      assert Distinct(init);
      DistinctMembers(init);
      assert Members(xs) == Members(init) + {last};
      assert last !in Members(init);
    }
  }

  /** Survivors and scheduled nodes together make up the array. */
  lemma {:induction false} KeptCount(xs: seq<Node>, r: seq<Node>)
    requires Distinct(xs)
    ensures |Kept(xs, r)| + |Members(xs) * Members(r)| == |xs|
    decreases |xs|
  {
    if |xs| > 0 {
      var init, last := xs[..|xs| - 1], xs[|xs| - 1];
      assert Distinct(init);
      KeptCount(init, r);
      assert Members(xs) == Members(init) + {last};
      assert last !in Members(init);
      if last in r {
        assert Members(xs) * Members(r) == Members(init) * Members(r) + {last};
      } else {
        assert Members(xs) * Members(r) == Members(init) * Members(r);
      }
    }
  }

  /** When the scheduled nodes are distinct nodes of the array, the new
      array's size, old size less scheduled count, is exactly the number of
      survivors. */
  lemma KeptSize(xs: seq<Node>, r: seq<Node>)
    requires Distinct(xs) && Distinct(r)
    requires forall n :: n in r ==> n in xs
    ensures |Kept(xs, r)| == |xs| - |r|
  {
    KeptCount(xs, r);
    DistinctMembers(r);
    assert Members(xs) * Members(r) == Members(r);
  }

  /** The survivors of a prefix are no more than those of the whole. */
  lemma {:induction false} KeptPrefix(xs: seq<Node>, r: seq<Node>, i: nat)
    requires i <= |xs|
    ensures |Kept(xs[..i], r)| <= |Kept(xs, r)|
    decreases |xs|
  {
    if i < |xs| {
      KeptPrefix(xs[..|xs| - 1], r, i);
      assert xs[..|xs| - 1][..i] == xs[..i];
    } else {
      assert xs[..i] == xs;
    }
  }

  /** The removal rule for one node, by the size of the cluster: an
      inactive node always goes; the only node of a cluster goes after five
      failures and a successful reseed; a node of a two-node cluster goes
      when only the other node refreshed, nobody named it as a friend and
      it failed; in larger clusters a node nobody named goes, once at least
      two nodes refreshed, when it failed or when it owns no partitions. */
  predicate Removable(active: bool, failures: nat, friends: nat, size: nat,
                      refreshCount: nat, reseeded: bool, mapped: bool)
  {
    if !active then true
    else if size == 1 then failures >= 5 && reseeded
    else if size == 2 then refreshCount == 1 && friends == 0 && failures > 0
    else refreshCount >= 2 && friends == 0 && (failures != 0 || !mapped)
  }

  /** The rule applied to a node's current counters. */
  predicate RemovableNode(n: Node, size: nat, refreshCount: nat, reseeded: bool, mapped: set<Node>)
    reads n
  {
    Removable(n.active, n.failures, n.friends, size, refreshCount, reseeded, n in mapped)
  }

  /** A one-node cluster whose node is active and has failed five times
      in a row: the removal search then tries the seeds. */
  predicate Reseeding(xs: seq<Node>)
    reads xs
  {
    |xs| == 1 && xs[0].active && xs[0].failures >= 5
  }

  /** The nodes of xs the rule schedules, in order. */
  function Scheduled(xs: seq<Node>, size: nat, refreshCount: nat, reseeded: bool, mapped: set<Node>): seq<Node>
    reads xs
  {
    if |xs| == 0 then []
    else
      var last := xs[|xs| - 1];
      Scheduled(xs[..|xs| - 1], size, refreshCount, reseeded, mapped)
      + (if RemovableNode(last, size, refreshCount, reseeded, mapped) then [last] else [])
  }

  /** The only node of a cluster that has failed five times is scheduled
      once seeding finds nodes. */
  lemma ReseedSchedulesNode(xs: seq<Node>, refreshCount: nat, mapped: set<Node>)
    requires Reseeding(xs)
    ensures xs == [xs[0]] && Scheduled(xs, |xs|, refreshCount, true, mapped) == xs
  {
    assert xs[..0] == [];
  }

  /** A node is scheduled exactly when it is in the array and the rule
      applies to it. */
  lemma {:induction false} ScheduledMembers(xs: seq<Node>, size: nat, refreshCount: nat, reseeded: bool, mapped: set<Node>)
    ensures forall n :: n in Scheduled(xs, size, refreshCount, reseeded, mapped) <==>
              n in xs && RemovableNode(n, size, refreshCount, reseeded, mapped)
    decreases |xs|
  {
    if |xs| > 0 {
      var init := xs[..|xs| - 1];
      ScheduledMembers(init, size, refreshCount, reseeded, mapped);
      assert xs == init + [xs[|xs| - 1]];
    }
  }

  /** The schedule of an array without repeats has no repeats, so it meets
      what the copy-on-write removal expects of it. */
  lemma {:induction false} ScheduledDistinct(xs: seq<Node>, size: nat, refreshCount: nat, reseeded: bool, mapped: set<Node>)
    requires Distinct(xs)
    ensures Distinct(Scheduled(xs, size, refreshCount, reseeded, mapped))
    decreases |xs|
  {
    if |xs| > 0 {
      var init, last := xs[..|xs| - 1], xs[|xs| - 1];
      assert Distinct(init);
      ScheduledDistinct(init, size, refreshCount, reseeded, mapped);
      ScheduledMembers(init, size, refreshCount, reseeded, mapped);
      assert last !in init;
    }
  }

  /** The number of active nodes whose refresh succeeded. */
  function Refreshes(xs: seq<Node>, refreshed: set<Node>): (r: nat)
    reads xs`active
    ensures r <= |xs|
  {
    if |xs| == 0 then 0
    else
      var last := xs[|xs| - 1];
      Refreshes(xs[..|xs| - 1], refreshed) + (if last.active && last in refreshed then 1 else 0)
  }

  // ---------------------------------------------------------------------
  // The stop rule of the start-up tends
  // ---------------------------------------------------------------------

  /** What one start-up tend reports: whether it succeeded, the node count
      after it, and whether the deadline was still ahead after it. */
  datatype Tended = Tended(ok: bool, size: nat, timeLeft: bool)

  /** The start-up tends from the i-th on, with count the node count seen
      by the previous one: whether the cluster is reported stable, and the
      number of tends made in all. */
  function Stabilize(tends: seq<Tended>, i: nat, count: nat): (bool, nat)
    requires i < |tends| && !tends[|tends| - 1].timeLeft
    decreases |tends| - i
  {
    var t := tends[i];
    if !t.ok then (false, i + 1)
    else if t.size == count then (true, i + 1)
    else if !t.timeLeft then (true, i + 1)
    else Stabilize(tends, i + 1, t.size)
  }

  /** The node count the tend before the j-th saw, when tending started
      at i with count. */
  function Previous(tends: seq<Tended>, i: nat, count: nat, j: nat): nat
    requires i <= j < |tends|
  {
    if j == i then count else tends[j - 1].size
  }

  /** The tends go on while each succeeds, changes the node count and
      leaves time; the first that does not ends them: a failed tend with
      false, a repeated count or the deadline with true. */
  lemma {:induction false} StabilizeMeans(tends: seq<Tended>, i: nat, count: nat)
    requires i < |tends| && !tends[|tends| - 1].timeLeft
    ensures var (stable, k) := Stabilize(tends, i, count);
      && i < k <= |tends|
      && (forall j :: i <= j < k - 1 ==>
            tends[j].ok && tends[j].timeLeft && tends[j].size != Previous(tends, i, count, j))
      && (stable <==> tends[k - 1].ok)
      && (stable ==> tends[k - 1].size == Previous(tends, i, count, k - 1) || !tends[k - 1].timeLeft)
    decreases |tends| - i
  {
    var t := tends[i];
    if t.ok && t.size != count && t.timeLeft {
      StabilizeMeans(tends, i + 1, t.size);
      var (stable, k) := Stabilize(tends, i + 1, t.size);
      forall j | i <= j < k - 1
        ensures tends[j].ok && tends[j].timeLeft && tends[j].size != Previous(tends, i, count, j)
      {
        if j > i {
          assert Previous(tends, i, count, j) == Previous(tends, i + 1, t.size, j);
        }
      }
      if k - 1 > i {
        assert Previous(tends, i, count, k - 1) == Previous(tends, i + 1, t.size, k - 1);
      }
    }
  }

  /** as_wait_till_stabilized over the outcomes of its tends; the count
      starts at the 32-bit all-ones value, so a first tend that sees that
      many nodes already counts as a repeat. */
  method WaitTillStabilized(tends: seq<Tended>) returns (stable: bool, made: nat)
    requires |tends| > 0 && !tends[|tends| - 1].timeLeft
    ensures (stable, made) == Stabilize(tends, 0, UINT32_MAX as nat)
  {
    var count: nat := UINT32_MAX as nat;
    var i := 0;
    while true
      invariant i < |tends|
      invariant Stabilize(tends, i, count) == Stabilize(tends, 0, UINT32_MAX as nat)
      decreases |tends| - i
    {
      var t := tends[i];
      if !t.ok {
        return false, i + 1;
      }
      if count == t.size {
        return true, i + 1;
      }
      count := t.size;
      if !t.timeLeft {
        return true, i + 1;
      }
      i := i + 1;
    }
  }

  // ---------------------------------------------------------------------
  // Credentials and settings
  // ---------------------------------------------------------------------

  /** The credentials after a password change: a non-empty user replaces
      them when there is no user yet or it is the same user. */
  function Credentials(user: Option<string>, password: Option<string>,
                       newUser: Option<string>, newPassword: string): (Option<string>, Option<string>)
  {
    if newUser.Some? && newUser.value != "" && (user.None? || user == newUser)
    then (newUser, Some(newPassword))
    else (user, password)
  }

  /** A password change never switches to another user: once there is a
      user it stays, and only its password may change; the first non-empty
      user is taken with its password. */
  lemma CredentialsKeepUser(user: Option<string>, password: Option<string>,
                            newUser: Option<string>, newPassword: string)
    ensures var (u, p) := Credentials(user, password, newUser, newPassword);
      && (user.Some? ==> u == user)
      && (user.None? && newUser.Some? && newUser.value != "" ==> u == newUser && p == Some(newPassword))
      && (u != user || p != password ==> u.Some? && u == newUser && p == Some(newPassword))
  {
  }

  /** The tend interval: at least 1000 ms, the configured value when it is
      that large. */
  function TendInterval(configured: nat): (r: nat)
    ensures r >= 1000
    ensures configured >= 1000 ==> r == configured
    ensures configured < 1000 ==> r == 1000
  {
    if configured < 1000 then 1000 else configured
  }

  /** The connect timeout: 0 means the 1000 ms default. */
  function ConnTimeout(configured: nat): (r: nat)
    ensures r != 0
    ensures configured != 0 ==> r == configured
  {
    if configured == 0 then 1000 else configured
  }

  /** The connection queue size: one more than the thread count for the
      tend thread, in 32 bits. */
  function ConnQueueSize(maxThreads: nat): (r: nat)
    requires maxThreads < TWO32
    ensures maxThreads < TWO32 - 1 ==> r == maxThreads + 1
    ensures maxThreads == TWO32 - 1 ==> r == 0
  {
    Inc32(maxThreads)
  }

  /** A configured string, empty meaning none. */
  function Configured(s: string): (r: Option<string>)
    ensures r.None? <==> s == ""
  {
    if s == "" then None else Some(s)
  }

  /** A cluster: its seeds, its node array and garbage list, its
      credentials and the settings its connections use. */
  class Cluster {
    var seeds: seq<Seed>
    var nodes: seq<Node>
    var gc: seq<GcItem>
    var user: Option<string>
    var password: Option<string>
    var tendInterval: nat
    var connQueueSize: nat
    var connTimeoutMs: nat

    /** The node array holds each node once. */
    predicate Valid()
      reads this
    {
      Distinct(nodes)
    }

    /** as_cluster_create up to starting the tends: credentials, clamped
      settings, the seeds from the configured hosts, no nodes, no
      garbage. */
    constructor (config: Config)
      requires config.maxThreads < TWO32
      ensures user == Configured(config.user) && password == Configured(config.password)
      ensures tendInterval == TendInterval(config.tenderInterval)
      ensures connQueueSize == ConnQueueSize(config.maxThreads)
      ensures connTimeoutMs == ConnTimeout(config.connTimeoutMs)
      ensures |seeds| <= |config.hosts|
      ensures forall j :: 0 <= j < |seeds| ==>
                config.hosts[j].addr.Some? && seeds[j] == Seed(config.hosts[j].addr.value, config.hosts[j].port)
      ensures |seeds| < |config.hosts| ==> config.hosts[|seeds|].addr.None?
      ensures nodes == [] && gc == []
      ensures Valid()
    {
      user := Configured(config.user);
      password := Configured(config.password);
      tendInterval := TendInterval(config.tenderInterval);
      connQueueSize := ConnQueueSize(config.maxThreads);
      connTimeoutMs := ConnTimeout(config.connTimeoutMs);
      var size := SeedsSize(config.hosts);
      var created := SeedsCreate(config.hosts, size);
      seeds := created;
      nodes := [];
      gc := [];
    }

    /** as_find_seed: some seed has the port and the name. */
    method FindSeed(hostname: string, port: int) returns (found: bool)
      ensures found == HasSeed(seeds, hostname, port)
    {
      var i := 0;
      while i < |seeds|
        invariant i <= |seeds|
        invariant forall j :: 0 <= j < i ==> !(seeds[j].port == port && seeds[j].name == hostname)
      {
        if seeds[i].port == port && seeds[i].name == hostname {
          return true;
        }
        i := i + 1;
      }
      return false;
    }

    /** as_add_seeds: the old seeds stay in place, the new ones follow in
      order. */
    method AddSeeds(added: seq<Seed>)
      modifies this`seeds
      ensures seeds == old(seeds) + added
    {
      var grown := seeds;
      var i := 0;
      while i < |added|
        invariant i <= |added|
        invariant grown == old(seeds) + added[..i]
      {
        grown := grown + [added[i]];
        i := i + 1;
      }
      assert added[..i] == added;
      seeds := grown;
    }

    /** The part of as_init_tend_thread that makes the nodes' addresses
      seeds: each address no seed has yet is collected, then all of them
      are added at once. */
    method AddNodeSeeds(addresses: seq<Seed>)
      modifies this`seeds
      ensures seeds == old(seeds) + NewSeeds(old(seeds), addresses)
    {
      var toAdd := [];
      var i := 0;
      while i < |addresses|
        invariant i <= |addresses|
        invariant seeds == old(seeds) && toAdd == NewSeeds(seeds, addresses[..i])
      {
        assert addresses[..i + 1][..i] == addresses[..i];
        var a := addresses[i];
        var found := FindSeed(a.name, a.port);
        if !found {
          toAdd := toAdd + [a];
        }
        i := i + 1;
      }
      assert addresses[..i] == addresses;
      if |toAdd| > 0 {
        AddSeeds(toAdd);
      } else {
        assert seeds + toAdd == seeds;
      }
    }

    /** as_cluster_add_nodes_copy: the new array is the old one followed
      by the added nodes; the old array goes on the garbage list. */
    method AddNodesCopy(toAdd: seq<Node>)
      requires Valid() && Distinct(toAdd)
      requires forall n :: n in toAdd ==> n !in nodes
      modifies this`nodes, this`gc
      ensures nodes == old(nodes) + toAdd
      ensures gc == old(gc) + [ReleaseNodes(old(nodes))]
      ensures Valid()
    {
      var nodesOld := nodes;
      DistinctAppend(nodesOld, toAdd);
      nodes := nodesOld + toAdd;
      gc := gc + [ReleaseNodes(nodesOld)];
    }

    /** as_cluster_remove_nodes_copy: the new array, sized old size less
      the scheduled count, holds the unscheduled nodes in order; each
      scheduled node and then the old array go on the garbage list. The
      scheduled nodes must be distinct nodes of the array, which is what
      the tend guarantees. */
    method RemoveNodesCopy(toRemove: seq<Node>)
      requires Valid() && Distinct(toRemove)
      requires forall n :: n in toRemove ==> n in nodes
      modifies this`nodes, this`gc
      ensures nodes == Kept(old(nodes), toRemove)
      ensures gc == old(gc) + Released(old(nodes), toRemove) + [ReleaseNodes(old(nodes))]
      ensures Valid()
    {
      var nodesOld := nodes;
      KeptSize(nodesOld, toRemove);
      var capacity := |nodesOld| - |toRemove|;
      var kept: seq<Node> := [];
      var i := 0;
      while i < |nodesOld|
        invariant i <= |nodesOld|
        invariant kept == Kept(nodesOld[..i], toRemove)
        invariant gc == old(gc) + Released(nodesOld[..i], toRemove)
      {
        var node := nodesOld[i];
        assert nodesOld[..i + 1][..i] == nodesOld[..i];
        var found := FindNodeByReference(toRemove, node);
        if found {
          gc := gc + [ReleaseNode(node)];
        } else {
          KeptPrefix(nodesOld, toRemove, i + 1);
          if |kept| < capacity {
            kept := kept + [node];
          } else {
            assert false;
          }
        }
        i := i + 1;
      }
      assert nodesOld[..i] == nodesOld;
      KeptDistinct(nodesOld, toRemove);
      nodes := kept;
      gc := gc + [ReleaseNodes(nodesOld)];
    }

    /** as_cluster_remove_nodes: the scheduled nodes are deactivated, then
      removed from the array. */
    method RemoveNodes(toRemove: seq<Node>)
      requires Valid() && Distinct(toRemove)
      requires forall n :: n in toRemove ==> n in nodes
      modifies this`nodes, this`gc, toRemove`active
      ensures forall n :: n in toRemove ==> !n.active
      ensures nodes == Kept(old(nodes), toRemove)
      ensures gc == old(gc) + Released(old(nodes), toRemove) + [ReleaseNodes(old(nodes))]
      ensures Valid()
    {
      var i := 0;
      while i < |toRemove|
        invariant i <= |toRemove|
        invariant forall j :: 0 <= j < i ==> !toRemove[j].active
        invariant nodes == old(nodes) && gc == old(gc)
      {
        toRemove[i].active := false;
        i := i + 1;
      }
      RemoveNodesCopy(toRemove);
    }

    /** as_cluster_find_nodes_to_remove: the nodes the removal rule
      schedules, in array order, over the array as it was when the search
      began; mapped holds the nodes that own partitions. The only node of a
      cluster that has failed five times makes the search seed the cluster:
      seeded holds the nodes seeding finds, which join the array through
      the copy-on-write insertion, and the node is scheduled exactly when
      there are some. */
    method FindNodesToRemove(refreshCount: nat, seeded: seq<Node>, mapped: set<Node>) returns (toRemove: seq<Node>)
      requires Valid() && Distinct(seeded)
      requires forall n :: n in seeded ==> n !in nodes
      modifies this`nodes, this`gc
      ensures toRemove == old(Scheduled(nodes, |nodes|, refreshCount, |seeded| > 0, mapped))
      ensures Valid()
      ensures old(Reseeding(nodes)) && |seeded| > 0 ==>
        nodes == old(nodes) + seeded && gc == old(gc) + [ReleaseNodes(old(nodes))]
      ensures !(old(Reseeding(nodes)) && |seeded| > 0) ==> nodes == old(nodes) && gc == old(gc)
    {
      var arr := nodes;
      var grows := Reseeding(arr) && |seeded| > 0;
      toRemove := [];
      var i := 0;
      while i < |arr|
        invariant i <= |arr|
        invariant toRemove == Scheduled(arr[..i], |arr|, refreshCount, |seeded| > 0, mapped)
        invariant Valid()
        invariant grows && i > 0 ==> nodes == arr + seeded && gc == old(gc) + [ReleaseNodes(arr)]
        invariant !(grows && i > 0) ==> nodes == arr && gc == old(gc)
      {
        var node := arr[i];
        assert arr[..i + 1][..i] == arr[..i];
        if !node.active {
          toRemove := toRemove + [node];
        } else if |arr| == 1 {
          if node.failures >= 5 && |seeded| > 0 {
            AddNodesCopy(seeded);
            toRemove := toRemove + [node];
          }
        } else if |arr| == 2 {
          if refreshCount == 1 && node.friends == 0 && node.failures > 0 {
            toRemove := toRemove + [node];
          }
        } else if refreshCount >= 2 && node.friends == 0 {
          if node.failures == 0 {
            if node !in mapped {
              toRemove := toRemove + [node];
            }
          } else {
            toRemove := toRemove + [node];
          }
        }
        i := i + 1;
      }
      assert arr[..i] == arr;
    }

    /** The removal step of as_cluster_tend: the search above, which may
      grow the array by the seeded nodes, then the nodes it scheduled are
      deactivated and removed in one batch, if there are any. */
    method RemoveScheduled(refreshCount: nat, seeded: seq<Node>, mapped: set<Node>) returns (removed: seq<Node>)
      requires Valid() && Distinct(seeded)
      requires forall n :: n in seeded ==> n !in nodes
      modifies this`nodes, this`gc, (set n | n in nodes)`active
      ensures removed == old(Scheduled(nodes, |nodes|, refreshCount, |seeded| > 0, mapped))
      ensures var grown := if old(Reseeding(nodes)) && |seeded| > 0 then old(nodes) + seeded else old(nodes);
        nodes == Kept(grown, removed) && Valid()
      ensures old(Reseeding(nodes)) && |seeded| > 0 ==> nodes == seeded
      ensures forall n :: n in removed ==> !n.active
      ensures forall n :: n in old(nodes) && n !in removed ==> n.active == old(n.active)
      ensures |removed| == 0 ==> nodes == old(nodes) && gc == old(gc)
      ensures |removed| > 0 && !(old(Reseeding(nodes)) && |seeded| > 0) ==>
        gc == old(gc) + Released(old(nodes), removed) + [ReleaseNodes(old(nodes))]
      ensures old(Reseeding(nodes)) && |seeded| > 0 ==>
        gc == old(gc) + [ReleaseNodes(old(nodes))] + [ReleaseNode(old(nodes)[0])] + [ReleaseNodes(old(nodes) + seeded)]
    {
      ghost var before := nodes;
      ghost var reseeds := Reseeding(nodes) && |seeded| > 0;
      if reseeds {
        ReseedSchedulesNode(nodes, refreshCount, mapped);
      }
      removed := FindNodesToRemove(refreshCount, seeded, mapped);
      ScheduledMembers(before, |before|, refreshCount, |seeded| > 0, mapped);
      ScheduledDistinct(before, |before|, refreshCount, |seeded| > 0, mapped);
      assert forall n :: n in removed ==> n in before;
      if |removed| > 0 {
        assert before <= nodes;
        RemoveNodes(removed);
        if reseeds {
          ReseedKeepsSeeded(before[0], seeded);
          ReleasedSeeded(before[0], seeded);
          assert Released(before + seeded, removed) == [ReleaseNode(before[0])];
        }
      } else {
        KeptAll(nodes);
      }
    }

    /** The first step of a tend's node statistics: no node has been named
      as a friend yet. */
    method ClearFriends()
      modifies nodes`friends
      ensures forall j :: 0 <= j < |nodes| ==> nodes[j].friends == 0
    {
      var i := 0;
      while i < |nodes|
        invariant i <= |nodes|
        invariant forall j :: 0 <= j < i ==> nodes[j].friends == 0
      {
        nodes[i].friends := 0;
        i := i + 1;
      }
    }

    /** The refresh pass of a tend: each active node whose refresh
      succeeded has its failures reset and is counted; each other active
      node has one more failure; inactive nodes are left alone. */
    method RefreshNodes(refreshed: set<Node>) returns (refreshCount: nat)
      requires Valid()
      requires forall j :: 0 <= j < |nodes| ==> nodes[j].failures < TWO32
      modifies nodes`failures
      ensures refreshCount == Refreshes(nodes, refreshed)
      ensures forall j :: 0 <= j < |nodes| ==>
                nodes[j].failures == (if !nodes[j].active then old(nodes[j].failures)
                                      else if nodes[j] in refreshed then 0
                                      else Inc32(old(nodes[j].failures)))
    {
      refreshCount := 0;
      var i := 0;
      while i < |nodes|
        invariant i <= |nodes|
        invariant refreshCount == Refreshes(nodes[..i], refreshed)
        invariant forall j :: 0 <= j < i ==>
                    nodes[j].failures == (if !nodes[j].active then old(nodes[j].failures)
                                          else if nodes[j] in refreshed then 0
                                          else Inc32(old(nodes[j].failures)))
        invariant forall j :: i <= j < |nodes| ==> nodes[j].failures == old(nodes[j].failures)
      {
        var node := nodes[i];
        assert nodes[..i + 1][..i] == nodes[..i];
        if node.active {
          if node in refreshed {
            node.failures := 0;
            refreshCount := refreshCount + 1;
          } else {
            node.failures := Inc32(node.failures);
          }
        }
        i := i + 1;
      }
      assert nodes[..i] == nodes;
    }

    /** as_cluster_gc: the garbage of the previous tend is released. */
    method CollectGarbage()
      modifies this`gc
      ensures gc == []
    {
      gc := [];
    }

    /** as_cluster_change_password. */
    method ChangePassword(newUser: Option<string>, newPassword: string)
      modifies this`user, this`password
      ensures (user, password) == Credentials(old(user), old(password), newUser, newPassword)
    {
      if newUser.Some? && newUser.value != "" {
        if user.None? || user == newUser {
          user := newUser;
          password := Some(newPassword);
        }
      }
    }
  }
}
