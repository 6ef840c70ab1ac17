/** What the ARP table means: a map from addresses to bindings with at most ten entries,
    each forgotten 300 seconds after its last use. */
module ArpCache {
  import opened Words
  import opened Collections
  import opened ByteOrder
  import opened ArpTable

  datatype Binding = Binding(mac: Mac, used: nat)

  type Cache = map<U32, Binding>

  predicate Taken(e: Entry) {
    e.time != 0
  }

  /** Free slots are empty, taken slots have a nonzero address not later than now, and no
      address occupies two slots. */
  ghost predicate WellFormed(t: seq<Entry>, now: nat) {
    && |t| == MAX_ARP_TABLE_ENTRIES && now < TWO_64
    && (forall i :: 0 <= i < |t| ==> t[i].time <= now && if Taken(t[i]) then t[i].ip != 0 else t[i] == NULL_ENTRY)
    && (forall i, j :: 0 <= i < j < |t| && Taken(t[i]) && Taken(t[j]) ==> t[i].ip != t[j].ip)
  }

  ghost function Bindings(t: seq<Entry>): Cache
    requires exists now :: WellFormed(t, now)
  {
    map i | 0 <= i < |t| && Taken(t[i]) :: t[i].ip := Binding(t[i].mac, t[i].time)
  }

  lemma {:induction false} LaterWellFormed(t: seq<Entry>, now: nat, later: U64)
    requires WellFormed(t, now) && now <= later
    ensures WellFormed(t, later)
  {
  }

  predicate Expired(b: Binding, now: int) {
    now - b.used > 300
  }

  lemma {:induction false} SlotOf(t: seq<Entry>, now: nat, ip: U32) returns (i: nat)
    requires WellFormed(t, now) && ip in Bindings(t)
    ensures i < |t| && Taken(t[i]) && t[i].ip == ip && Bindings(t)[ip] == Binding(t[i].mac, t[i].time)
  {
    i :| 0 <= i < |t| && Taken(t[i]) && t[i].ip == ip;
  }

  lemma {:induction false} BindingOf(t: seq<Entry>, now: nat, i: nat)
    requires WellFormed(t, now) && i < |t| && Taken(t[i])
    ensures t[i].ip in Bindings(t) && Bindings(t)[t[i].ip] == Binding(t[i].mac, t[i].time)
  {
  }

  /** The cache never holds more than ten bindings. */
  lemma {:induction false} Bounded(t: seq<Entry>, now: nat)
    requires WellFormed(t, now)
    ensures |Bindings(t)| <= 10
  {
    var keys := Addresses(t, |t|);
    assert Bindings(t).Keys <= keys;
    CardinalityOfSubset(Bindings(t).Keys, keys);
  }

  lemma {:induction false} Addresses(t: seq<Entry>, n: nat) returns (all: set<U32>)
    requires n <= |t|
    ensures |all| <= n && forall i :: 0 <= i < n ==> t[i].ip in all
  {
    if n == 0 {
      all := {};
    } else {
      var less := Addresses(t, n - 1);
      all := less + {t[n - 1].ip};
    }
  }

  // ------------------------------------------------------------------- find

  lemma {:induction false} Age(e: Entry, now: U64)
    requires e.time <= now
    ensures TooOld(e, now) <==> Taken(e) && now - e.time > MAX_ARP_TABLE_AGE
  {
  }

  ghost predicate Readings(t: seq<Entry>, rs: seq<Reading>, lo: nat, hi: nat) {
    |rs| == |t| && Monotone(rs, lo, hi) && hi < TWO_64
  }

  /** No free slot can be mistaken for one that holds the address. */
  predicate Searchable(t: seq<Entry>, ip: U32) {
    ip != 0 || forall i :: 0 <= i < |t| ==> Taken(t[i])
  }

  /** Free slots that match the address are stamped with time zero, and so stay free. */
  predicate Unstamped(t: seq<Entry>, ip: U32, rs: seq<Reading>)
    requires |rs| == |t|
  {
    ip != 0 || forall i :: 0 <= i < |t| ==> Taken(t[i]) || rs[i].refresh == 0
  }

  /** A scan keeps the table well formed exactly if it stamps no free slot. */
  lemma {:induction false} FindKeepsWellFormed(t: seq<Entry>, ip: U32, rs: seq<Reading>, lo: nat, hi: nat)
    requires WellFormed(t, lo) && Readings(t, rs, lo, hi)
    ensures WellFormed(AfterFind(t, ip, rs), hi) <==> Unstamped(t, ip, rs)
  {
    var t' := AfterFind(t, ip, rs);
    forall i | 0 <= i < |t|
      ensures t'[i] == Scanned(t[i], ip, rs[i]) && (TooOld(t[i], rs[i].test) ==> Taken(t[i]))
    {
    }
    if i :| 0 <= i < |t| && !Taken(t[i]) && ip == 0 && rs[i].refresh != 0 {
      assert t'[i].time == rs[i].refresh && t'[i].ip == 0;
      assert Taken(t'[i]);
    }
  }

  /** A hit is the one slot that holds the address, if it is still young enough. */
  lemma {:induction false} HitIsSlot(t: seq<Entry>, ip: U32, rs: seq<Reading>, lo: nat, hi: nat)
    requires WellFormed(t, lo) && Readings(t, rs, lo, hi) && Searchable(t, ip)
    ensures var i := LastHit(t, ip, rs, |t|);
      && (i == NOT_FOUND ==> forall j :: 0 <= j < |t| ==> !Hit(t[j], ip, rs[j]))
      && (i != NOT_FOUND ==> i < |t| && Taken(t[i]) && t[i].ip == ip && rs[i].test - t[i].time <= MAX_ARP_TABLE_AGE)
  {
    var i := LastHit(t, ip, rs, |t|);
    if i != NOT_FOUND {
      Age(t[i], rs[i].test);
    }
  }

  /** How one call of arp_table_find between times lo and hi changes the cache, and what its
      result says. When the clock does not tick during the call, lo == hi and this is: all
      bindings unused for more than 300 s go, the one for ip is refreshed if it stays, and
      the search succeeds exactly then. */
  ghost predicate Aged(m: Cache, m': Cache, ip: U32, found: bool, lo: nat, hi: nat) {
    && (forall k :: k in m && !Expired(m[k], hi) ==> k in m')
    && (forall k :: k in m' ==> k in m && !Expired(m[k], lo))
    && (forall k :: k in m' && k != ip ==> m'[k] == m[k])
    && (ip in m' ==> m'[ip].mac == m[ip].mac && lo <= m'[ip].used <= hi)
    && (found <==> ip in m')
  }

  lemma {:induction false} KeptByFind(t: seq<Entry>, ip: U32, rs: seq<Reading>, lo: nat, hi: nat, k: U32) returns (i: nat)
    requires WellFormed(t, lo) && Readings(t, rs, lo, hi) && Searchable(t, ip)
    requires WellFormed(AfterFind(t, ip, rs), hi)
    requires k in Bindings(AfterFind(t, ip, rs))
    ensures i < |t| && Taken(t[i]) && t[i].ip == k && !TooOld(t[i], rs[i].test)
    ensures k in Bindings(t) && Bindings(t)[k] == Binding(t[i].mac, t[i].time) && !Expired(Bindings(t)[k], lo)
    ensures Bindings(AfterFind(t, ip, rs))[k] == Binding(t[i].mac, if k == ip then rs[i].refresh else t[i].time)
  {
    var t' := AfterFind(t, ip, rs);
    i := SlotOf(t', hi, k);
    assert t'[i] == Scanned(t[i], ip, rs[i]);
    Age(t[i], rs[i].test);
    BindingOf(t, lo, i);
  }

  lemma {:induction false} SurvivesFind(t: seq<Entry>, ip: U32, rs: seq<Reading>, lo: nat, hi: nat, k: U32)
    requires WellFormed(t, lo) && Readings(t, rs, lo, hi) && Searchable(t, ip)
    requires WellFormed(AfterFind(t, ip, rs), hi)
    requires k in Bindings(t) && !Expired(Bindings(t)[k], hi)
    ensures k in Bindings(AfterFind(t, ip, rs))
  {
    var i := SlotOf(t, lo, k);
    Age(t[i], rs[i].test);
    assert AfterFind(t, ip, rs)[i] == Scanned(t[i], ip, rs[i]);
    BindingOf(AfterFind(t, ip, rs), hi, i);
  }

  lemma {:induction false} FoundMeansKept(t: seq<Entry>, ip: U32, rs: seq<Reading>, lo: nat, hi: nat)
    requires WellFormed(t, lo) && Readings(t, rs, lo, hi) && Searchable(t, ip)
    requires WellFormed(AfterFind(t, ip, rs), hi)
    ensures var i := LastHit(t, ip, rs, |t|);
      && (i != NOT_FOUND <==> ip in Bindings(AfterFind(t, ip, rs)))
      && (i != NOT_FOUND ==> i < |t| && Bindings(AfterFind(t, ip, rs))[ip] == Binding(t[i].mac, rs[i].refresh))
  {
    var t' := AfterFind(t, ip, rs);
    var i := LastHit(t, ip, rs, |t|);
    HitIsSlot(t, ip, rs, lo, hi);
    if i != NOT_FOUND {
      assert t'[i] == Scanned(t[i], ip, rs[i]);
      BindingOf(t', hi, i);
    } else if ip in Bindings(t') {
      var j := KeptByFind(t, ip, rs, lo, hi, ip);
      assert Hit(t[j], ip, rs[j]);
    }
  }

  lemma {:induction false} FindAges(t: seq<Entry>, ip: U32, rs: seq<Reading>, lo: nat, hi: nat)
    requires WellFormed(t, lo) && Readings(t, rs, lo, hi) && Searchable(t, ip)
    ensures WellFormed(AfterFind(t, ip, rs), hi)
    ensures Aged(Bindings(t), Bindings(AfterFind(t, ip, rs)), ip, LastHit(t, ip, rs, |t|) != NOT_FOUND, lo, hi)
  {
    FindKeepsWellFormed(t, ip, rs, lo, hi);
    var m, m' := Bindings(t), Bindings(AfterFind(t, ip, rs));
    FoundMeansKept(t, ip, rs, lo, hi);
    forall k | k in m && !Expired(m[k], hi) ensures k in m' { SurvivesFind(t, ip, rs, lo, hi, k); }
    forall k | k in m'
      ensures k in m && !Expired(m[k], lo)
      ensures k != ip ==> m'[k] == m[k]
      ensures k == ip ==> m'[k].mac == m[k].mac && lo <= m'[k].used <= hi
    {
      var i := KeptByFind(t, ip, rs, lo, hi, k);
    }
  }

  /** Address zero is bound in no well-formed table, but found in every free slot. */
  lemma {:induction false} ZeroIsFound(t: seq<Entry>, ip: U32, rs: seq<Reading>, lo: nat, hi: nat)
    requires WellFormed(t, lo) && Readings(t, rs, lo, hi) && !Searchable(t, ip)
    ensures ip == 0 && LastHit(t, ip, rs, |t|) != NOT_FOUND && !Taken(t[LastHit(t, ip, rs, |t|)])
  {
    var i :| 0 <= i < |t| && !Taken(t[i]);
    assert Hit(t[i], ip, rs[i]);
  }

  lemma {:induction false} ZeroNotBound(t: seq<Entry>, now: nat)
    requires WellFormed(t, now)
    ensures 0 !in Bindings(t)
  {
  }

  /** arp_table_find does to the cache what it should exactly if the address is not zero or
      no slot is free. */
  lemma {:induction false} FindRefinesCache(t: seq<Entry>, ip: U32, rs: seq<Reading>, lo: nat, hi: nat)
    requires WellFormed(t, lo) && Readings(t, rs, lo, hi)
    ensures Searchable(t, ip) <==>
            && WellFormed(AfterFind(t, ip, rs), hi)
            && Aged(Bindings(t), Bindings(AfterFind(t, ip, rs)), ip, LastHit(t, ip, rs, |t|) != NOT_FOUND, lo, hi)
  {
    if Searchable(t, ip) {
      FindAges(t, ip, rs, lo, hi);
    } else {
      ZeroIsFound(t, ip, rs, lo, hi);
      if WellFormed(AfterFind(t, ip, rs), hi) {
        ZeroNotBound(AfterFind(t, ip, rs), hi);
      }
    }
  }

  /** A lookup returns the mac of the binding it refreshed, or the null mac, and keeps the
      table in order, exactly if it stamps no free slot. */
  lemma {:induction false} LookupRefinesCache(t: seq<Entry>, ip: U32, rs: seq<Reading>, lo: nat, hi: nat)
    requires WellFormed(t, lo) && Readings(t, rs, lo, hi)
    ensures Unstamped(t, ip, rs) <==>
            && WellFormed(AfterFind(t, ip, rs), hi)
            && var m' := Bindings(AfterFind(t, ip, rs));
               LookedUp(t, ip, rs) == if ip in m' then m'[ip].mac else NULL_MAC
  {
    FindKeepsWellFormed(t, ip, rs, lo, hi);
    if Searchable(t, ip) {
      FoundMeansKept(t, ip, rs, lo, hi);
    } else {
      ZeroIsFound(t, ip, rs, lo, hi);
      if Unstamped(t, ip, rs) {
        ZeroNotBound(AfterFind(t, ip, rs), hi);
      }
    }
  }

  // ----------------------------------------------------------------- update

  /** Stamping free slots with time zero changes nothing, and no slot is taken then. */
  lemma {:induction false} NothingStamped(t: seq<Entry>, ip: U32, rs: seq<Reading>, lo: nat, hi: nat)
    requires WellFormed(t, lo) && Readings(t, rs, lo, hi) && !Searchable(t, ip) && Unstamped(t, ip, rs)
    ensures AfterFind(t, ip, rs) == t && Bindings(t) == map[]
  {
    var i :| 0 <= i < |t| && !Taken(t[i]);
    assert lo <= rs[i].test <= rs[i].refresh == 0;
    assert forall j :: 0 <= j < |t| ==> t[j] == NULL_ENTRY && AfterFind(t, ip, rs)[j] == t[j];
  }

  /** An update finds the binding, if any, or overwrites a free slot with what it holds. */
  predicate Harmless(t: seq<Entry>, mac: Mac, ip: U32, rs: seq<Reading>)
    requires |rs| == |t|
  {
    Searchable(t, ip) || (Unstamped(t, ip, rs) && mac == NULL_MAC)
  }

  /** Replaces the mac of a binding. */
  ghost predicate Updated(m: Cache, m': Cache, mac: Mac, ip: U32) {
    m' == if ip in m then m[ip := m[ip].(mac := mac)] else m
  }

  lemma {:induction false} UpdateReplaces(t: seq<Entry>, mac: Mac, ip: U32, rs: seq<Reading>, lo: nat, hi: nat)
    requires WellFormed(t, lo) && Readings(t, rs, lo, hi) && Searchable(t, ip)
    ensures var a, t' := AfterFind(t, ip, rs), AfterUpdate(t, mac, ip, rs);
      WellFormed(a, hi) && WellFormed(t', hi) && Updated(Bindings(a), Bindings(t'), mac, ip)
  {
    FindKeepsWellFormed(t, ip, rs, lo, hi);
    FoundMeansKept(t, ip, rs, lo, hi);
    HitIsSlot(t, ip, rs, lo, hi);
    var a := AfterFind(t, ip, rs);
    var i := LastHit(t, ip, rs, |t|);
    if i != NOT_FOUND {
      assert a[i] == Scanned(t[i], ip, rs[i]);
      ReplaceMac(a, hi, i, mac);
    }
  }

  /** An update for address zero that finds a free slot. */
  lemma {:induction false} UpdateOfFreeSlot(t: seq<Entry>, mac: Mac, ip: U32, rs: seq<Reading>, lo: nat, hi: nat)
    requires WellFormed(t, lo) && Readings(t, rs, lo, hi) && !Searchable(t, ip)
    ensures WellFormed(AfterUpdate(t, mac, ip, rs), hi) <==> Harmless(t, mac, ip, rs)
    ensures Harmless(t, mac, ip, rs) ==> AfterUpdate(t, mac, ip, rs) == AfterFind(t, ip, rs)
  {
    ZeroIsFound(t, ip, rs, lo, hi);
    FindKeepsWellFormed(t, ip, rs, lo, hi);
    var a, t' := AfterFind(t, ip, rs), AfterUpdate(t, mac, ip, rs);
    var i := LastHit(t, ip, rs, |t|);
    assert a[i] == Scanned(t[i], ip, rs[i]) && t[i] == NULL_ENTRY;
    assert t'[i] == Entry(0, mac, rs[i].refresh);
    if !Unstamped(t, ip, rs) {
      var j :| 0 <= j < |t| && !Taken(t[j]) && rs[j].refresh != 0;
      assert a[j] == Scanned(t[j], ip, rs[j]);
      assert Taken(t'[j]) && t'[j].ip == 0;
    } else if mac == NULL_MAC {
      assert a[i] == t'[i];
    }
  }

  /** arp_table_update keeps the table in order, and replaces the mac of the binding if there
      is one, exactly under this condition. */
  lemma {:induction false} UpdateRefinesCache(t: seq<Entry>, mac: Mac, ip: U32, rs: seq<Reading>, lo: nat, hi: nat)
    requires WellFormed(t, lo) && Readings(t, rs, lo, hi)
    ensures Harmless(t, mac, ip, rs) <==> WellFormed(AfterUpdate(t, mac, ip, rs), hi)
    ensures Harmless(t, mac, ip, rs) ==>
              && WellFormed(AfterFind(t, ip, rs), hi)
              && Updated(Bindings(AfterFind(t, ip, rs)), Bindings(AfterUpdate(t, mac, ip, rs)), mac, ip)
  {
    if Searchable(t, ip) {
      UpdateReplaces(t, mac, ip, rs, lo, hi);
    } else {
      UpdateOfFreeSlot(t, mac, ip, rs, lo, hi);
      FindKeepsWellFormed(t, ip, rs, lo, hi);
      if Harmless(t, mac, ip, rs) {
        ZeroNotBound(AfterFind(t, ip, rs), hi);
      }
    }
  }

  lemma {:induction false} ReplaceMac(t: seq<Entry>, now: nat, i: nat, mac: Mac)
    requires WellFormed(t, now) && i < |t| && Taken(t[i])
    ensures WellFormed(t[i := t[i].(mac := mac)], now)
    ensures Bindings(t[i := t[i].(mac := mac)]) == Bindings(t)[t[i].ip := Binding(mac, t[i].time)]
  {
    var t' := t[i := t[i].(mac := mac)];
    assert WellFormed(t', now);
    forall k | k in Bindings(t') ensures k in Bindings(t)[t[i].ip := Binding(mac, t[i].time)]
    {
      var j := SlotOf(t', now, k);
      BindingOf(t, now, j);
    }
    forall k | k in Bindings(t)[t[i].ip := Binding(mac, t[i].time)]
      ensures k in Bindings(t') && Bindings(t')[k] == Bindings(t)[t[i].ip := Binding(mac, t[i].time)][k]
    {
      if k == t[i].ip {
        BindingOf(t', now, i);
      } else {
        var j := SlotOf(t, now, k);
        BindingOf(t', now, j);
      }
    }
  }

  // -------------------------------------------------------------------- add

  /** Adding a binding for a new address disturbs no other one while a slot is free, and
      otherwise only one that no other was used longer ago than. */
  ghost predicate Inserted(m: Cache, m': Cache, mac: Mac, ip: U32, now: nat) {
    if |m| < 10 then m' == m[ip := Binding(mac, now)]
    else exists v :: v in m && (forall k :: k in m ==> m[v].used <= m[k].used) && m' == (m - {v})[ip := Binding(mac, now)]
  }

  lemma {:induction false} PutKeepsWellFormed(t: seq<Entry>, now: nat, later: U64, i: nat, mac: Mac, ip: U32)
    requires WellFormed(t, now) && i < |t| && now <= later && later != 0 && ip != 0 && ip !in Bindings(t)
    ensures WellFormed(t[i := Entry(ip, mac, later)], later)
  {
    forall j | 0 <= j < |t| && Taken(t[j]) ensures t[j].ip != ip { BindingOf(t, now, j); }
  }

  lemma {:induction false} PutKeepsOthers(t: seq<Entry>, now: nat, later: U64, i: nat, mac: Mac, ip: U32, k: U32)
    requires WellFormed(t, now) && i < |t| && now <= later && later != 0 && ip != 0 && ip !in Bindings(t) && k != ip
    requires WellFormed(t[i := Entry(ip, mac, later)], later)
    ensures var t', rest := t[i := Entry(ip, mac, later)], if Taken(t[i]) then Bindings(t) - {t[i].ip} else Bindings(t);
      (k in Bindings(t') <==> k in rest) && (k in rest ==> Bindings(t')[k] == rest[k])
  {
    var t' := t[i := Entry(ip, mac, later)];
    var rest := if Taken(t[i]) then Bindings(t) - {t[i].ip} else Bindings(t);
    if k in Bindings(t') {
      var j := SlotOf(t', later, k);
      BindingOf(t, now, j);
    }
    if k in rest {
      var j := SlotOf(t, now, k);
      BindingOf(t', later, j);
    }
  }

  lemma {:induction false} PutSlot(t: seq<Entry>, now: nat, later: U64, i: nat, mac: Mac, ip: U32)
    requires WellFormed(t, now) && i < |t| && now <= later && later != 0 && ip != 0 && ip !in Bindings(t)
    ensures var t', rest := t[i := Entry(ip, mac, later)], if Taken(t[i]) then Bindings(t) - {t[i].ip} else Bindings(t);
      WellFormed(t', later) && Bindings(t') == rest[ip := Binding(mac, later)]
  {
    PutKeepsWellFormed(t, now, later, i, mac, ip);
    var t' := t[i := Entry(ip, mac, later)];
    BindingOf(t', later, i);
    forall k: U32 | k != ip
      ensures var rest := if Taken(t[i]) then Bindings(t) - {t[i].ip} else Bindings(t);
        (k in Bindings(t') <==> k in rest) && (k in rest ==> Bindings(t')[k] == rest[k])
    {
      PutKeepsOthers(t, now, later, i, mac, ip, k);
    }
  }

  lemma {:induction false} FullTable(t: seq<Entry>, now: nat)
    requires WellFormed(t, now)
    ensures |Bindings(t)| < MAX_ARP_TABLE_ENTRIES <==> exists i :: 0 <= i < |t| && !Taken(t[i])
  {
    var n, keys := CountTaken(t, now, |t|);
    assert keys == Bindings(t).Keys;
  }

  lemma {:induction false} CountTaken(t: seq<Entry>, now: nat, n: nat) returns (count: nat, keys: set<U32>)
    requires WellFormed(t, now) && n <= |t|
    ensures |keys| == count <= n
    ensures forall k :: k in keys <==> exists i :: 0 <= i < n && Taken(t[i]) && t[i].ip == k
    ensures count < n <==> exists i :: 0 <= i < n && !Taken(t[i])
  {
    if n == 0 {
      count, keys := 0, {};
    } else {
      count, keys := CountTaken(t, now, n - 1);
      if Taken(t[n - 1]) {
        count, keys := count + 1, keys + {t[n - 1].ip};
      }
    }
  }

  lemma {:induction false} AddInserts(t: seq<Entry>, now: nat, mac: Mac, ip: U32, later: U64, t': seq<Entry>)
    requires WellFormed(t, now) && now <= later && later != 0 && ip != 0 && ip !in Bindings(t)
    requires AfterAdd(t, mac, ip, later, t')
    ensures WellFormed(t', later)
    ensures Inserted(Bindings(t), Bindings(t'), mac, ip, later)
  {
    var slot :| 0 <= slot < |t| && Victim(t, slot) && t' == t[slot := Entry(ip, mac, later)];
    PutSlot(t, now, later, slot, mac, ip);
    FullTable(t, now);
    var m := Bindings(t);
    if !Taken(t[slot]) {
      assert |m| < MAX_ARP_TABLE_ENTRIES;
    } else {
      var v := t[slot].ip;
      BindingOf(t, now, slot);
      forall k | k in m ensures m[v].used <= m[k].used {
        var j := SlotOf(t, now, k);
      }
      assert Bindings(t') == (m - {v})[ip := Binding(mac, later)];
    }
  }

  /** What is written for address zero, or at time zero, is no binding. */
  lemma {:induction false} NoBindingAdded(t: seq<Entry>, now: nat, mac: Mac, ip: U32, later: U64, t': seq<Entry>)
    requires WellFormed(t, now) && now <= later && (ip == 0 || later == 0)
    requires AfterAdd(t, mac, ip, later, t')
    ensures WellFormed(t', later) <==> Entry(ip, mac, later) == NULL_ENTRY
    ensures WellFormed(t', later) ==> ip !in Bindings(t')
  {
    var slot :| 0 <= slot < |t| && Victim(t, slot) && t' == t[slot := Entry(ip, mac, later)];
    assert t'[slot] == Entry(ip, mac, later);
    if Entry(ip, mac, later) == NULL_ENTRY {
      assert forall i :: 0 <= i < |t| && i != slot ==> t'[i] == t[i];
      ZeroNotBound(t', later);
    }
  }

  /** arp_table_add_entry, called for an address not in the table, inserts a binding for it
      exactly if the address is not zero and the clock does not show zero. */
  lemma {:induction false} AddRefinesCache(t: seq<Entry>, now: nat, mac: Mac, ip: U32, later: U64, t': seq<Entry>)
    requires WellFormed(t, now) && now <= later && ip !in Bindings(t)
    requires AfterAdd(t, mac, ip, later, t')
    ensures ip != 0 && later != 0 <==>
            WellFormed(t', later) && Inserted(Bindings(t), Bindings(t'), mac, ip, later)
    ensures WellFormed(t', later) <==> (ip != 0 && later != 0) || Entry(ip, mac, later) == NULL_ENTRY
  {
    if ip != 0 && later != 0 {
      AddInserts(t, now, mac, ip, later, t');
    } else {
      NoBindingAdded(t, now, mac, ip, later, t');
    }
  }
}
