/** ssl3_choose_cipher (handshake_server.cc:357-424): one pass over the
    preferred list, with groups of equal preference. */
module CipherChoice {
  import opened Wrappers

  datatype Cipher = Cipher(id: nat, minVersion: nat, maxVersion: nat, mkey: bv32, auth: bv32)

  /** The connection's version and what the server's configuration allows. */
  datatype Config = Config(version: nat, maskK: bv32, maskA: bv32)

  predicate Usable(c: Cipher, g: Config) {
    c.minVersion <= g.version <= c.maxVersion && c.mkey & g.maskK != 0 && c.auth & g.maskA != 0
  }

  /** The first place of a cipher in a list. */
  function Find(list: seq<Cipher>, c: Cipher): (r: Option<nat>)
    ensures r.None? <==> c !in list
    ensures r.Some? ==> r.value < |list| && list[r.value] == c && c !in list[..r.value]
  {
    if list == [] then None
    else if list[0] == c then Some(0)
    else
      assert list == [list[0]] + list[1..];
      match Find(list[1..], c)
      case None => None
      case Some(k) => assert list[..k+1] == [list[0]] + list[1..][..k]; Some(k + 1)
  }

  /** A preferred list, its group flags (each but the last cipher of a group has
      its flag set), the other side's list and the configuration. */
  datatype Offer = Offer(prio: seq<Cipher>, flags: Option<seq<bool>>, allow: seq<Cipher>, g: Config)

  predicate Valid(o: Offer) { o.flags.Some? ==> |o.flags.value| == |o.prio| }

  /** Cipher i is followed by another one of its group. */
  predicate Joined(o: Offer, i: nat)
    requires Valid(o) && i < |o.prio|
  {
    o.flags.Some? && o.flags.value[i]
  }

  predicate Acceptable(o: Offer, i: nat)
    requires i < |o.prio|
  {
    Usable(o.prio[i], o.g) && o.prio[i] in o.allow
  }

  function Place(o: Offer, i: nat): nat
    requires i < |o.prio| && Acceptable(o, i)
  {
    Find(o.allow, o.prio[i]).value
  }

  /** The number of groups that end before cipher i. */
  function Group(o: Offer, i: nat): nat
    requires Valid(o) && i <= |o.prio|
  {
    if i == 0 then 0 else Group(o, i - 1) + if Joined(o, i - 1) then 0 else 1
  }

  lemma {:induction false} GroupMonotone(o: Offer, i: nat, j: nat)
    requires Valid(o) && i <= j <= |o.prio|
    ensures Group(o, i) <= Group(o, j)
    ensures Group(o, i) < Group(o, j) <==> exists k :: i <= k < j && !Joined(o, k)
    decreases j
  {
    if i < j { GroupMonotone(o, i, j - 1); }
  }

  /** Cipher i is no worse than cipher j: in an earlier group, or in the same
      group and no later in the other side's list. */
  predicate NoWorse(o: Offer, i: nat, j: nat)
    requires Valid(o) && i < |o.prio| && j < |o.prio| && Acceptable(o, i) && Acceptable(o, j)
  {
    Group(o, i) < Group(o, j) || (Group(o, i) == Group(o, j) && Place(o, i) <= Place(o, j))
  }

  /** Cipher i's group is ended within the list. */
  predicate Closed(o: Offer, i: nat)
    requires Valid(o) && i < |o.prio|
  {
    Group(o, i) < Group(o, |o.prio|)
  }

  /** What is wanted: the best of the acceptable ciphers, none if there is none. */
  ghost predicate Wanted(o: Offer, r: Option<Cipher>)
    requires Valid(o)
  {
    match r
    case None => forall j :: 0 <= j < |o.prio| ==> !Acceptable(o, j)
    case Some(c) =>
      exists i :: 0 <= i < |o.prio| && Acceptable(o, i) && o.prio[i] == c
                  && forall j :: 0 <= j < |o.prio| && Acceptable(o, j) ==> NoWorse(o, i, j)
  }

  /** What the pass finds: the best of those whose group is closed. */
  ghost predicate Found(o: Offer, r: Option<Cipher>)
    requires Valid(o)
  {
    match r
    case None => forall j :: 0 <= j < |o.prio| && Closed(o, j) ==> !Acceptable(o, j)
    case Some(c) =>
      exists i :: 0 <= i < |o.prio| && Closed(o, i) && Acceptable(o, i) && o.prio[i] == c
                  && forall j :: 0 <= j < |o.prio| && Acceptable(o, j) ==> NoWorse(o, i, j)
  }

  /** Nothing before the current group is acceptable, and of the current group so
      far, m is the best, if anything. */
  ghost predicate BestSoFar(o: Offer, n: nat, m: Option<nat>)
    requires Valid(o) && n <= |o.prio|
  {
    && (m.None? ==> forall j :: 0 <= j < n ==> !Acceptable(o, j))
    && (m.Some? ==>
          exists i :: 0 <= i < n && Acceptable(o, i) && Place(o, i) == m.value && Group(o, i) == Group(o, n)
                      && forall j :: 0 <= j < n && Acceptable(o, j) ==> NoWorse(o, i, j))
  }

  /** Looking at one more cipher, acceptable or not. */
  function Better(o: Offer, n: nat, m: Option<nat>): Option<nat>
    requires n < |o.prio|
  {
    if !Acceptable(o, n) then m
    else if m.None? || m.value > Place(o, n) then Some(Place(o, n)) else m
  }

  /** The best of the group, up to and with cipher n, is at the place found. */
  ghost predicate BestWith(o: Offer, n: nat, m: Option<nat>)
    requires Valid(o) && n < |o.prio|
  {
    && (m.None? ==> forall j :: 0 <= j <= n ==> !Acceptable(o, j))
    && (m.Some? ==>
          exists i :: 0 <= i <= n && Acceptable(o, i) && Place(o, i) == m.value && Group(o, i) == Group(o, n)
                      && forall j :: 0 <= j <= n && Acceptable(o, j) ==> NoWorse(o, i, j))
  }

  lemma LookAt(o: Offer, n: nat, m: Option<nat>)
    requires Valid(o) && n < |o.prio| && BestSoFar(o, n, m)
    ensures BestWith(o, n, Better(o, n, m))
  {
    hide Usable, Find, Group;
    if m.Some? {
      var i :| 0 <= i < n && Acceptable(o, i) && Place(o, i) == m.value && Group(o, i) == Group(o, n)
               && forall j :: 0 <= j < n && Acceptable(o, j) ==> NoWorse(o, i, j);
      var best := if Acceptable(o, n) && Place(o, n) < m.value then n else i;
      assert Acceptable(o, best) && Some(Place(o, best)) == Better(o, n, m);
      assert forall j :: 0 <= j <= n && Acceptable(o, j) ==> NoWorse(o, best, j);
    } else if Acceptable(o, n) {
      assert NoWorse(o, n, n);
    }
  }

  /** When a group ends, its best is the answer. */
  lemma GroupEnds(o: Offer, n: nat, m: Option<nat>)
    requires Valid(o) && n < |o.prio| && BestWith(o, n, m) && m.Some? && !Joined(o, n)
    ensures m.value < |o.allow| && Found(o, Some(o.allow[m.value]))
  {
    hide Usable, Group;
    var i :| 0 <= i <= n && Acceptable(o, i) && Place(o, i) == m.value && Group(o, i) == Group(o, n)
             && forall j :: 0 <= j <= n && Acceptable(o, j) ==> NoWorse(o, i, j);
    GroupMonotone(o, n, |o.prio|);
    forall j | 0 <= j < |o.prio| && Acceptable(o, j) ensures NoWorse(o, i, j) {
      if j > n { GroupMonotone(o, n, j); }
    }
    assert Closed(o, i) && o.prio[i] == o.allow[m.value];
  }

  /** When it goes on, or nothing was found in it, the search goes on. */
  lemma GroupGoesOn(o: Offer, n: nat, m: Option<nat>)
    requires Valid(o) && n < |o.prio| && BestWith(o, n, m) && (m.None? || Joined(o, n))
    ensures BestSoFar(o, n + 1, m)
  {
    hide Usable, Find, Acceptable, Place, NoWorse;
  }

  /** At the end of the list, what is left over is in the open group. */
  lemma ListEnds(o: Offer, m: Option<nat>)
    requires Valid(o) && BestSoFar(o, |o.prio|, m)
    ensures Found(o, None)
  {
    hide Usable, Find, Place, Acceptable;
    if m.Some? {
      var i :| 0 <= i < |o.prio| && Acceptable(o, i) && Group(o, i) == Group(o, |o.prio|)
               && forall j :: 0 <= j < |o.prio| && Acceptable(o, j) ==> NoWorse(o, i, j);
      forall j | 0 <= j < |o.prio| && Acceptable(o, j) ensures !Closed(o, j) {
        assert NoWorse(o, i, j);
      }
    }
  }

  /** The pass itself. */
  method Choose(o: Offer) returns (r: Option<Cipher>)
    requires Valid(o)
    ensures Found(o, r)
  {
    hide Usable, Group, Found, BestSoFar, BestWith;
    var groupMin: Option<nat> := None;
    assert BestSoFar(o, 0, None) by { NothingYet(o); }
    for i := 0 to |o.prio|
      invariant BestSoFar(o, i, groupMin) && (groupMin.Some? ==> o.flags.Some?)
    {
      var c := o.prio[i];
      var inGroup := o.flags.Some? && o.flags.value[i];
      LookAt(o, i, groupMin);
      if Usable(c, o.g) {
        var found := Find(o.allow, c);
        if found.Some? {
          var index := found.value;
          if inGroup {
            if groupMin.None? || groupMin.value > index { groupMin := Some(index); }
          } else {
            if groupMin.Some? && groupMin.value < index { index := groupMin.value; }
            GroupEnds(o, i, Some(index));
            return Some(o.allow[index]);
          }
        }
      }
      if o.flags.Some? && !o.flags.value[i] && groupMin.Some? {
        GroupEnds(o, i, groupMin);
        return Some(o.allow[groupMin.value]);
      }
      GroupGoesOn(o, i, groupMin);
    }
    ListEnds(o, groupMin);
    return None;
  }

  lemma NothingYet(o: Offer)
    requires Valid(o)
    ensures BestSoFar(o, 0, None)
  {
  }

  /** ssl3_choose_cipher: the server's order with its groups, or the client's. */
  function OfferOf(serverPreference: bool, client: seq<Cipher>, server: seq<Cipher>, flags: Option<seq<bool>>,
                   g: Config): Offer {
    if serverPreference then Offer(server, flags, client, g) else Offer(client, None, server, g)
  }

  method ChooseCipher(serverPreference: bool, client: Option<seq<Cipher>>, server: seq<Cipher>,
                      flags: Option<seq<bool>>, g: Config)
    returns (r: Option<Cipher>)
    requires flags.Some? ==> |flags.value| == |server|
    ensures client.None? ==> r.None?
    ensures client.Some? ==> Found(OfferOf(serverPreference, client.value, server, flags, g), r)
    ensures client.Some? && (!serverPreference || !OpenEnded(server, flags)) ==>
              Wanted(OfferOf(serverPreference, client.value, server, flags, g), r)
    ensures client.Some? && !serverPreference ==> FirstInOrder(client.value, server, g, r)
    ensures client.Some? && serverPreference && flags.None? ==> FirstInOrder(server, client.value, g, r)
    ensures r.Some? ==> client.Some? && r.value in client.value && r.value in server
  {
    if client.None? { return None; }
    hide Usable, Group;
    var o := OfferOf(serverPreference, client.value, server, flags, g);
    r := Choose(o);
    FoundIsShared(o, r);
    if !serverPreference || !OpenEnded(server, flags) { FoundIsWanted(o, r); }
    if o.flags.None? { WantedIsFirst(o, r); }
  }

  /** What is chosen is in both lists, of a version that fits, and has a bit of the
      server's key exchanges and one of its authentications; */
  lemma FoundIsShared(o: Offer, r: Option<Cipher>)
    requires Valid(o) && Found(o, r)
    ensures r.Some? ==> var c := r.value;
                        && c in o.prio && c in o.allow && c.minVersion <= o.g.version && o.g.version <= c.maxVersion
                        && c.mkey & o.g.maskK != 0 && c.auth & o.g.maskA != 0
  {
  }

  /** and if no cipher is, nothing in both lists has all of that. */
  lemma NothingShared(o: Offer, c: Cipher)
    requires Valid(o) && Wanted(o, None) && c in o.prio && c in o.allow
    ensures c.minVersion > o.g.version || o.g.version > c.maxVersion
            || c.mkey & o.g.maskK == 0 || c.auth & o.g.maskA == 0
  {
    var j :| 0 <= j < |o.prio| && o.prio[j] == c;
    assert !Acceptable(o, j);
  }

  /** The last group of a list is not ended. */
  predicate OpenEnded(prio: seq<Cipher>, flags: Option<seq<bool>>)
    requires flags.Some? ==> |flags.value| == |prio|
  {
    flags.Some? && prio != [] && flags.value[|prio|-1]
  }

  /** The first usable cipher of a list that the other list also has. */
  ghost predicate FirstInOrder(prio: seq<Cipher>, allow: seq<Cipher>, g: Config, r: Option<Cipher>) {
    match r
    case None => forall c :: c in prio && c in allow ==> !Usable(c, g)
    case Some(c) =>
      exists i :: 0 <= i < |prio| && prio[i] == c && c in allow && Usable(c, g)
                  && forall j :: 0 <= j < i ==> prio[j] !in allow || !Usable(prio[j], g)
  }

  // ----- what the answer means -----

  /** The best cipher is one only: the contract determines the answer. */
  lemma WantedIsOne(o: Offer, r: Option<Cipher>, s: Option<Cipher>)
    requires Valid(o) && Wanted(o, r) && Wanted(o, s)
    ensures r == s
  {
    hide Usable, Group;
    if r.Some? && s.Some? {
      var i :| 0 <= i < |o.prio| && Acceptable(o, i) && o.prio[i] == r.value
               && forall j :: 0 <= j < |o.prio| && Acceptable(o, j) ==> NoWorse(o, i, j);
      var k :| 0 <= k < |o.prio| && Acceptable(o, k) && o.prio[k] == s.value
               && forall j :: 0 <= j < |o.prio| && Acceptable(o, j) ==> NoWorse(o, k, j);
      assert NoWorse(o, i, k) && NoWorse(o, k, i);
    }
  }

  /** Where the last flag is clear every group is closed, and the pass finds what
      is wanted. */
  lemma FoundIsWanted(o: Offer, r: Option<Cipher>)
    requires Valid(o) && Found(o, r) && !OpenEnded(o.prio, o.flags)
    ensures Wanted(o, r)
  {
    hide Usable, Group, Acceptable;
    forall j | 0 <= j < |o.prio| ensures Closed(o, j) {
      GroupMonotone(o, j, |o.prio|);
      assert !Joined(o, |o.prio| - 1);
    }
  }

  /** Without groups the best is the first. */
  lemma WantedIsFirst(o: Offer, r: Option<Cipher>)
    requires Valid(o) && Wanted(o, r) && o.flags.None?
    ensures FirstInOrder(o.prio, o.allow, o.g, r)
  {
    hide Usable, Group;
    match r
    case None =>
      forall c | c in o.prio && c in o.allow ensures !Usable(c, o.g) {
        var j :| 0 <= j < |o.prio| && o.prio[j] == c;
        assert !Acceptable(o, j);
      }
    case Some(c) =>
      var i :| 0 <= i < |o.prio| && Acceptable(o, i) && o.prio[i] == c
               && forall j :: 0 <= j < |o.prio| && Acceptable(o, j) ==> NoWorse(o, i, j);
      forall j | 0 <= j < i ensures o.prio[j] !in o.allow || !Usable(o.prio[j], o.g) {
        GroupMonotone(o, j, i);
        assert !Joined(o, j);
        assert Acceptable(o, j) ==> NoWorse(o, i, j);
      }
  }

  /** A server list, given by ciphers and flags, whose choices are always the
      wanted ones, whatever the client offers. */
  ghost predicate AlwaysRight(server: seq<Cipher>, flags: Option<seq<bool>>, g: Config)
    requires flags.Some? ==> |flags.value| == |server|
  {
    forall client, r :: Found(Offer(server, flags, client, g), r) ==> Wanted(Offer(server, flags, client, g), r)
  }

  /** Of a list of different ciphers with the last one usable, the choices are
      always right exactly if the last flag is clear. */
  lemma RightExactlyIfEnded(server: seq<Cipher>, flags: Option<seq<bool>>, g: Config)
    requires flags.Some? ==> |flags.value| == |server|
    requires forall i, j :: 0 <= i < j < |server| ==> server[i] != server[j]
    requires server != [] && Usable(server[|server|-1], g)
    ensures AlwaysRight(server, flags, g) <==> !OpenEnded(server, flags)
  {
    hide Usable, Group;
    if !OpenEnded(server, flags) {
      forall client, r | Found(Offer(server, flags, client, g), r) ensures Wanted(Offer(server, flags, client, g), r) {
        FoundIsWanted(Offer(server, flags, client, g), r);
      }
    } else {
      var n := |server| - 1;
      var o := Offer(server, flags, [server[n]], g);
      GroupMonotone(o, n, |server|);
      assert !Closed(o, n) && Acceptable(o, n);
      assert Found(o, None) && !Wanted(o, None);
    }
  }

  /** Groups are a matter of the preferred list and its flags alone. */
  lemma {:induction false} SameGroup(o: Offer, o': Offer, i: nat)
    requires Valid(o) && Valid(o') && o'.prio == o.prio && o'.flags == o.flags && i <= |o.prio|
    ensures Group(o', i) == Group(o, i)
  {
    if i > 0 { SameGroup(o, o', i - 1); }
  }

  /** Every usable cipher of the group that is not ended, if there is one, is also
      in a group that is. */
  ghost predicate Covered(server: seq<Cipher>, flags: Option<seq<bool>>, g: Config)
    requires flags.Some? ==> |flags.value| == |server|
  {
    var o := Offer(server, flags, [], g);
    forall i :: 0 <= i < |server| && !Closed(o, i) && Usable(server[i], g) ==>
      exists j :: 0 <= j < |server| && Closed(o, j) && server[j] == server[i]
  }

  /** The choices are always right, whatever the client offers, exactly if that is
      so: with no cipher listed twice, if no cipher of an unended group is usable. */
  lemma RightExactly(server: seq<Cipher>, flags: Option<seq<bool>>, g: Config)
    requires flags.Some? ==> |flags.value| == |server|
    ensures AlwaysRight(server, flags, g) <==> Covered(server, flags, g)
  {
    hide Usable, Group;
    var o := Offer(server, flags, [], g);
    if Covered(server, flags, g) {
      forall client, r | Found(Offer(server, flags, client, g), r) ensures Wanted(Offer(server, flags, client, g), r) {
        CoveredIsRight(server, flags, client, g, r);
      }
    } else {
      var i :| 0 <= i < |server| && !Closed(o, i) && Usable(server[i], g)
               && forall j :: 0 <= j < |server| && Closed(o, j) ==> server[j] != server[i];
      var o' := Offer(server, flags, [server[i]], g);
      forall j | 0 <= j < |server| ensures Closed(o', j) <==> Closed(o, j) {
        SameGroup(o, o', j);
        SameGroup(o, o', |server|);
      }
      assert Acceptable(o', i);
      assert Found(o', None) && !Wanted(o', None);
    }
  }

  lemma CoveredIsRight(server: seq<Cipher>, flags: Option<seq<bool>>, client: seq<Cipher>, g: Config, r: Option<Cipher>)
    requires flags.Some? ==> |flags.value| == |server|
    requires Covered(server, flags, g) && Found(Offer(server, flags, client, g), r)
    ensures Wanted(Offer(server, flags, client, g), r)
  {
    hide Usable, Group;
    var o, o' := Offer(server, flags, [], g), Offer(server, flags, client, g);
    if r.None? {
      forall j | 0 <= j < |server| ensures Closed(o', j) <==> Closed(o, j) {
        SameGroup(o, o', j);
        SameGroup(o, o', |server|);
      }
      forall j | 0 <= j < |server| && !Closed(o, j) && Usable(server[j], g) ensures server[j] !in client {
        var i :| 0 <= i < |server| && Closed(o, i) && server[i] == server[j];
        assert !Acceptable(o', i);
      }
    }
  }

  /** A single cipher that both sides have is not chosen if its group is open. */
  lemma OpenGroupIsNotChosen(c: Cipher, g: Config)
    requires Usable(c, g)
    ensures var o := Offer([c], Some([true]), [c], g); Found(o, None) && !Wanted(o, None)
  {
    var o := Offer([c], Some([true]), [c], g);
    assert Group(o, 1) == Group(o, 0);
    assert Acceptable(o, 0);
  }
}
