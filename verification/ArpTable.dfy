/** The ARP cache of routing.c: ten slots, emptied when unused for 300 seconds, refreshed
    on every hit and reused oldest first. The clock may tick while a function scans. */
module ArpTable {
  import opened Words
  import opened ByteOrder

  const MAX_ARP_TABLE_ENTRIES := 10
  const MAX_ARP_TABLE_AGE := 300
  const NOT_FOUND: U32 := 0xFFFF_FFFF

  /** An `arp_table_entry_t`; entry_time 0 marks a free slot. */
  datatype Entry = Entry(ip: U32, mac: Mac, time: U64)

  const NULL_ENTRY := Entry(0, NULL_MAC, 0)

  /** The two clock readings for one slot: of the age test and of the refresh. */
  datatype Reading = Reading(test: U64, refresh: U64)

  /** The readings of one scan never go back, and lie between lo and hi. */
  predicate Monotone(rs: seq<Reading>, lo: nat, hi: nat) {
    && lo <= hi
    && (forall i :: 0 <= i < |rs| ==> lo <= rs[i].test <= rs[i].refresh <= hi)
    && (forall i, j :: 0 <= i < j < |rs| ==> rs[i].refresh <= rs[j].test)
  }

  /** `clock_seconds() - entry.entry_time > MAX_ARP_TABLE_AGE`, in unsigned arithmetic. */
  predicate TooOld(e: Entry, now: U64) {
    e.time != 0 && (now - e.time) % TWO_64 > MAX_ARP_TABLE_AGE
  }

  /** What the scan of arp_table_find makes of one slot, and whether it is a hit. */
  function Scanned(e: Entry, ip: U32, r: Reading): Entry {
    if TooOld(e, r.test) then NULL_ENTRY else if e.ip == ip then e.(time := r.refresh) else e
  }

  predicate Hit(e: Entry, ip: U32, r: Reading) {
    !TooOld(e, r.test) && e.ip == ip
  }

  function AfterFind(t: seq<Entry>, ip: U32, rs: seq<Reading>): seq<Entry>
    requires |t| == |rs|
  {
    seq(|t|, i requires 0 <= i < |t| => Scanned(t[i], ip, rs[i]))
  }

  /** The last hit among the first n slots, or NOT_FOUND. */
  function LastHit(t: seq<Entry>, ip: U32, rs: seq<Reading>, n: nat): (i: U32)
    requires |t| == |rs| <= MAX_ARP_TABLE_ENTRIES && n <= |t|
    ensures i == NOT_FOUND || (i < n && Hit(t[i], ip, rs[i]))
    ensures forall j :: 0 <= j < n && Hit(t[j], ip, rs[j]) ==> i != NOT_FOUND && j <= i
  {
    if n == 0 then NOT_FOUND
    else if Hit(t[n - 1], ip, rs[n - 1]) then n - 1
    else LastHit(t, ip, rs, n - 1)
  }

  /** The slot arp_table_add_entry takes: the first free one, or else the first of the oldest. */
  predicate Victim(t: seq<Entry>, slot: nat) {
    && slot < |t|
    && (if t[slot].time == 0 then forall i :: 0 <= i < slot ==> t[i].time != 0
        else
          && (forall i :: 0 <= i < |t| ==> t[i].time != 0 && t[slot].time <= t[i].time)
          && forall i :: 0 <= i < slot ==> t[slot].time < t[i].time)
  }

  /** arp_table_add_entry, arp_table_update and arp_table_lookup as functions. */
  predicate AfterAdd(t: seq<Entry>, mac: Mac, ip: U32, now: U64, t': seq<Entry>) {
    exists slot :: 0 <= slot < |t| && Victim(t, slot) && t' == t[slot := Entry(ip, mac, now)]
  }

  function AfterUpdate(t: seq<Entry>, mac: Mac, ip: U32, rs: seq<Reading>): seq<Entry>
    requires |t| == |rs| <= MAX_ARP_TABLE_ENTRIES
  {
    var i := LastHit(t, ip, rs, |t|);
    var t' := AfterFind(t, ip, rs);
    if i == NOT_FOUND then t' else t'[i := t'[i].(mac := mac)]
  }

  function LookedUp(t: seq<Entry>, ip: U32, rs: seq<Reading>): Mac
    requires |t| == |rs| <= MAX_ARP_TABLE_ENTRIES
  {
    var i := LastHit(t, ip, rs, |t|);
    if i == NOT_FOUND then NULL_MAC else t[i].mac
  }

  /** The first |rs| slots of t are scanned in t', the others as they were. */
  ghost predicate PartlyScanned(t: seq<Entry>, t': seq<Entry>, ip: U32, rs: seq<Reading>) {
    && |rs| <= |t| == |t'|
    && (forall k :: 0 <= k < |rs| ==> t'[k] == Scanned(t[k], ip, rs[k]))
    && (forall k :: |rs| <= k < |t| ==> t'[k] == t[k])
  }

  lemma {:induction false} OneMoreScanned(t: seq<Entry>, t1: seq<Entry>, t2: seq<Entry>, ip: U32, rs: seq<Reading>, r: Reading)
    requires PartlyScanned(t, t1, ip, rs) && |rs| < |t| == |t2|
    requires t2[|rs|] == Scanned(t1[|rs|], ip, r) && forall k :: 0 <= k < |t| && k != |rs| ==> t2[k] == t1[k]
    ensures PartlyScanned(t, t2, ip, rs + [r])
  {
  }

  // -------------------------------------------------------------- the code

  /** clock_seconds(): each reading may come later than the one before. */
  class Clock {
    var seconds: U64

    constructor (start: U64)
      ensures seconds == start
    {
      seconds := start;
    }

    method Seconds() returns (now: U64)
      modifies this
      ensures old(seconds) <= now == seconds
    {
      var later: U64 :| seconds <= later;
      seconds := later;
      now := later;
    }
  }

  class Routing {
    var table: array?<Entry>
    const clock: Clock

    ghost predicate Valid()
      reads this, table
    {
      table != null ==> table.Length == MAX_ARP_TABLE_ENTRIES
    }

    function Slots(): seq<Entry>
      reads this, table
    {
      if table == null then [] else table[..]
    }

    constructor (clock: Clock)
      ensures Valid() && table == null && this.clock == clock
    {
      table := null;
      this.clock := clock;
    }

    /** routing_init, whose malloc may fail. */
    method Init(mallocSucceeds: bool)
      requires Valid()
      modifies this
      ensures Valid()
      ensures old(table) != null ==> table == old(table)
      ensures old(table) == null ==>
                if mallocSucceeds then fresh(table) && Slots() == seq(MAX_ARP_TABLE_ENTRIES, _ => NULL_ENTRY)
                else table == null
    {
      if table == null && mallocSucceeds {
        table := new Entry[MAX_ARP_TABLE_ENTRIES](_ => NULL_ENTRY);
      }
    }

    method Find(ip: U32) returns (res: U32, ghost rs: seq<Reading>)
      requires Valid()
      modifies clock, table
      ensures |rs| == |Slots()| == |old(Slots())| && Monotone(rs, old(clock.seconds), clock.seconds)
      ensures Slots() == AfterFind(old(Slots()), ip, rs)
      ensures res == LastHit(old(Slots()), ip, rs, |rs|)
    {
      if table == null {
        return NOT_FOUND, [];
      }
      res, rs := NOT_FOUND, [];
      ghost var t := table[..];
      for i := 0 to MAX_ARP_TABLE_ENTRIES
        invariant |rs| == i && Monotone(rs, old(clock.seconds), clock.seconds)
        invariant PartlyScanned(t, table[..], ip, rs) && res == LastHit(t[..i], ip, rs, i)
      {
        ghost var now := table[..];
        ghost var reading;
        var hit;
        hit, reading := ScanSlot(i, ip);
        if hit {
          res := i;
        }
        OneMoreScanned(t, now, table[..], ip, rs, reading);
        LastHitExtends(t[..i], t[i], ip, rs, reading);
        assert t[..i] + [t[i]] == t[..i + 1];
        rs := rs + [reading];
      }
      assert t[..MAX_ARP_TABLE_ENTRIES] == t;
      assert table[..] == AfterFind(t, ip, rs);
    }

    /** The body of the loop of arp_table_find, for slot i. */
    method ScanSlot(i: nat, ip: U32) returns (hit: bool, ghost reading: Reading)
      requires Valid() && table != null && i < MAX_ARP_TABLE_ENTRIES
      modifies clock, table
      ensures old(clock.seconds) <= reading.test <= reading.refresh <= clock.seconds
      ensures table[i] == Scanned(old(table[i]), ip, reading) && (hit <==> Hit(old(table[i]), ip, reading))
      ensures forall k :: 0 <= k < MAX_ARP_TABLE_ENTRIES && k != i ==> table[k] == old(table[k])
    {
      hit := false;
      var entry := table[i];
      var tooOld := false;
      ghost var tested := clock.seconds;
      if entry.time != 0 {
        var now := clock.Seconds();
        tested := now;
        tooOld := (now - entry.time) % TWO_64 > MAX_ARP_TABLE_AGE;
      }
      if tooOld {
        table[i] := NULL_ENTRY;
      } else if entry.ip == ip {
        hit := true;
        var now := clock.Seconds();
        table[i] := table[i].(time := now);
      }
      reading := Reading(tested, clock.seconds);
    }

    method Lookup(ip: U32) returns (mac: Mac, ghost rs: seq<Reading>)
      requires Valid()
      modifies clock, table
      ensures |rs| == |Slots()| == |old(Slots())| && Monotone(rs, old(clock.seconds), clock.seconds)
      ensures Slots() == AfterFind(old(Slots()), ip, rs)
      ensures mac == LookedUp(old(Slots()), ip, rs)
    {
      if table == null {
        return NULL_MAC, [];
      }
      var position;
      position, rs := Find(ip);
      if position != NOT_FOUND {
        mac := table[position].mac;
      } else {
        mac := NULL_MAC;
      }
    }

    method AddEntry(mac: Mac, ip: U32)
      requires Valid()
      modifies clock, table
      ensures old(clock.seconds) <= clock.seconds
      ensures if table == null then Slots() == old(Slots())
              else AfterAdd(old(Slots()), mac, ip, clock.seconds, Slots())
    {
      if table == null {
        return;
      }
      var slot := 0;
      ghost var t := table[..];
      var i := 0;
      while i < MAX_ARP_TABLE_ENTRIES
        invariant 0 <= i <= MAX_ARP_TABLE_ENTRIES && 0 <= slot < MAX_ARP_TABLE_ENTRIES
        invariant slot <= i && (slot < i || i == 0)
        invariant forall k :: 0 <= k < i ==> t[k].time != 0 && t[slot].time <= t[k].time
        invariant forall k :: 0 <= k < slot ==> t[slot].time < t[k].time
      {
        if table[i].time == 0 {
          slot := i;
          break;
        } else if table[i].time < table[slot].time {
          slot := i;
        }
        i := i + 1;
      }
      assert Victim(t, slot);
      var now := clock.Seconds();
      table[slot] := Entry(ip, mac, now);
      assert table[..] == t[slot := Entry(ip, mac, now)];
    }

    method Update(mac: Mac, ip: U32) returns (updated: bool, ghost rs: seq<Reading>)
      requires Valid()
      modifies clock, table
      ensures |rs| == |Slots()| == |old(Slots())| && Monotone(rs, old(clock.seconds), clock.seconds)
      ensures Slots() == AfterUpdate(old(Slots()), mac, ip, rs)
      ensures updated <==> LastHit(old(Slots()), ip, rs, |rs|) != NOT_FOUND
    {
      if table == null {
        return false, [];
      }
      var position;
      position, rs := Find(ip);
      if position != NOT_FOUND {
        table[position] := table[position].(mac := mac);
        return true, rs;
      }
      return false, rs;
    }
  }

  lemma {:induction false} LastHitOfMore(t: seq<Entry>, e: Entry, ip: U32, rs: seq<Reading>, r: Reading, n: nat)
    requires |t| == |rs| < MAX_ARP_TABLE_ENTRIES && n <= |t|
    ensures LastHit(t + [e], ip, rs + [r], n) == LastHit(t, ip, rs, n)
  {
    if n == 0 {
    } else {
      LastHitOfMore(t, e, ip, rs, r, n - 1);
    }
  }

  lemma {:induction false} LastHitExtends(t: seq<Entry>, e: Entry, ip: U32, rs: seq<Reading>, r: Reading)
    requires |t| == |rs| < MAX_ARP_TABLE_ENTRIES
    ensures LastHit(t + [e], ip, rs + [r], |t| + 1) == if Hit(e, ip, r) then |t| else LastHit(t, ip, rs, |t|)
  {
    LastHitOfMore(t, e, ip, rs, r, |t|);
  }
}
