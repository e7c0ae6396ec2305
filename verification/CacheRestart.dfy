/** From whatever is left of a cache on disk to a cache that can be used again. */
module CacheRestart {
  import opened Basics
  import opened Slashes
  import opened LruRing
  import opened Checksum
  import opened CacheMatch
  import opened CacheRuns
  import opened CacheRecency
  import opened CacheRepair
  import opened RepairDirs
  import opened RepairWalk
  import opened RepairNames
  import opened RepairClean
  import opened DirCaches
  import opened CacheInfo
  import opened CacheSession

  // ----- names of files -----

  function EntryDirOf(n: Name): string
    requires n.Entry?
  {
    n.job + "/" + n.key + "/"
  }

  function HintPath(x: (string, string)): string { x.0 + "/" + ("deps_hint-" + x.1) }

  predicate IsName(n: Name) { n.Entry? ==> n.key != "" && '/' !in n.key }

  function LruPath(n: Name): string { if n.Entry? then EntryDirOf(n) + "lru" else HEAD_S + "lru" }

  /** The files of the cache together with what they hold: the record files, the infos that can be decoded, the
      links and the reservations. */
  datatype Store = Store(tree: Tree, records: Disk, infos: map<Name, Deps>, hints: Hints, reserved: Reserved)

  ghost predicate IsRegular(tree: Tree, f: string) { f in tree && tree[f].Regular? }

  ghost predicate Describes(s: Store, hex: nat -> string) {
    match s
    case Store(tree, records, infos, hints, reserved) =>
      && IsTree(tree)
      && (forall n :: n in records ==> IsName(n))
      && (forall n :: IsName(n) ==> (n in records <==> IsRegular(tree, LruPath(n))))
      && (forall n :: n in infos ==> n.Entry? && IsName(n) && IsRegular(tree, EntryDirOf(n) + "info"))
      && (forall x :: x in hints ==> '/' !in x.1 && HintPath(x) in tree && tree[HintPath(x)] == Node.Link(hints[x]))
      && (forall k :: k in reserved ==> '/' !in hex(k) && IsRegular(tree, ReservedPath(hex, k)))
  }

  /** The entries that qualify, with their sizes. */
  ghost function SizesOf(r: Naming, s: Store, measure: string -> nat): map<Name, nat> {
    map n | n in s.records && n.Entry? && Qualifies(r, s.tree, measure, EntryDirOf(n)) :: measure(EntryDirOf(n))
  }

  /** What is used of the names by which files are recognised. */
  ghost predicate NamesFit(r: Naming, hex: nat -> string) {
    && r.Valid() && "lru" in r.tags
    && (forall k :: r.keyName(k) ==> IsHint(k) && k != "")
    && (forall n: Name :: n.Entry? ==> !r.admin(EntryDirOf(n) + "info"))
    && (forall k :: '/' !in hex(k) ==> r.FateOf(ReservedPath(hex, k), Node.Regular) == Goes)
  }

  ghost predicate CleanedBy(r: Naming, s: Store, measure: string -> nat, kept: map<string, nat>, t: Tree) {
    && (forall d {:trigger Qualifies(r, s.tree, measure, d)} :: d in kept <==> Qualifies(r, s.tree, measure, d))
    && (forall d :: d in kept ==> kept[d] == measure(d))
    && Clean(r, s.tree, kept.Keys, t)
  }

  lemma {:induction false} EntryListed(r: Naming, s: Store, hex: nat -> string, measure: string -> nat, n: Name)
    requires NamesFit(r, hex) && Describes(s, hex) && n.Entry? && IsName(n) && Qualifies(r, s.tree, measure, EntryDirOf(n))
    ensures n in SizesOf(r, s, measure)
  {
    assert IsRegular(s.tree, LruPath(n));
  }

  /** An empty directory is a store. */
  lemma {:induction false} EmptyStore(hex: nat -> string)
    ensures Describes(Store(map[], map[], map[], map[], map[]), hex)
  {
  }

  lemma {:induction false} InfoDir(n: Name)
    requires n.Entry?
    ensures Up(EntryDirOf(n) + "info") == EntryDirOf(n)
  {
    UpOf(EntryDirOf(n), "info");
  }

  lemma {:induction false} HintDir(x: (string, string), k: string)
    requires '/' !in x.1
    ensures Up(HintPath(x)) + k + "/" == EntryDirOf(Entry(x.0, k))
  {
    UpOf(x.0 + "/", "deps_hint-" + x.1);
  }

  // ----- what a repair leaves -----

  function SizesIn(s: Store, kept: map<string, nat>): map<Name, nat> {
    map n | n in s.records && n.Entry? && EntryDirOf(n) in kept :: kept[EntryDirOf(n)]
  }

  function InfosIn(s: Store, t: Tree): map<Name, Deps> {
    map n | n in s.infos && n.Entry? && EntryDirOf(n) + "info" in t :: s.infos[n]
  }

  function HintsIn(s: Store, t: Tree): Hints { map x | x in s.hints && HintPath(x) in t :: s.hints[x] }

  function ReservedIn(s: Store, hex: nat -> string, t: Tree): Reserved {
    map k | k in s.reserved && ReservedPath(hex, k) in t :: s.reserved[k]
  }

  lemma {:induction false} LeftSizes(r: Naming, s: Store, measure: string -> nat, kept: map<string, nat>, t: Tree)
    requires CleanedBy(r, s, measure, kept, t)
    ensures SizesIn(s, kept) == SizesOf(r, s, measure)
  {
  }

  /** The infos that are left are those of entries that qualify. */
  lemma {:induction false} LeftInfos(r: Naming, s: Store, hex: nat -> string, measure: string -> nat, kept: map<string, nat>, t: Tree)
    requires NamesFit(r, hex) && Describes(s, hex) && CleanedBy(r, s, measure, kept, t)
    ensures InfosIn(s, t).Keys <= SizesOf(r, s, measure).Keys && NoSlash(InfosIn(s, t).Keys)
  {
    forall n | n in InfosIn(s, t)
      ensures n in SizesOf(r, s, measure)
    {
      FileLeft(r, s.tree, kept.Keys, t, EntryDirOf(n) + "info");
      InfoDir(n);
      EntryListed(r, s, hex, measure, n);
    }
  }

  /** Links lead to entries among `names`. */
  ghost predicate LeadTo(hints: Hints, names: set<Name>) { forall x :: x in hints ==> Entry(x.0, hints[x]) in names }

  /** The links that are left lead to entries that qualify. */
  lemma {:induction false} LeftHints(r: Naming, s: Store, hex: nat -> string, measure: string -> nat, kept: map<string, nat>, t: Tree)
    requires NamesFit(r, hex) && Describes(s, hex) && CleanedBy(r, s, measure, kept, t)
    ensures HintsOk(HintsIn(s, t)) && LeadTo(HintsIn(s, t), SizesOf(r, s, measure).Keys)
  {
    forall x | x in HintsIn(s, t)
      ensures IsHint(s.hints[x]) && Entry(x.0, s.hints[x]) in SizesOf(r, s, measure)
    {
      LinkLeft(r, s.tree, kept.Keys, t, HintPath(x));
      HintDir(x, s.hints[x]);
      EntryListed(r, s, hex, measure, Entry(x.0, s.hints[x]));
    }
  }

  /** No reservation is left. */
  lemma {:induction false} LeftReserved(r: Naming, s: Store, hex: nat -> string, measure: string -> nat, kept: map<string, nat>, t: Tree)
    requires NamesFit(r, hex) && Describes(s, hex) && CleanedBy(r, s, measure, kept, t)
    ensures ReservedIn(s, hex, t) == map[]
  {
    forall k | k in s.reserved
      ensures ReservedPath(hex, k) !in t
    {
      NotLeft(r, s.tree, kept.Keys, t, ReservedPath(hex, k));
    }
  }

  /** What is left of the store, with the sizes of the entries that qualify. */
  method ReadLeft(r: Naming, s: Store, hex: nat -> string, measure: string -> nat)
    returns (sizes: map<Name, nat>, infos: map<Name, Deps>, hints: Hints, reserved: Reserved)
    requires NamesFit(r, hex) && Describes(s, hex)
    ensures sizes == SizesOf(r, s, measure) && reserved == map[]
    ensures infos.Keys <= sizes.Keys && NoSlash(infos.Keys)
    ensures HintsOk(hints) && LeadTo(hints, sizes.Keys)
  {
    var t, kept := CleanUp(r, s.tree, measure);
    LeftSizes(r, s, measure, kept, t);
    LeftInfos(r, s, hex, measure, kept, t);
    LeftHints(r, s, hex, measure, kept, t);
    LeftReserved(r, s, hex, measure, kept, t);
    sizes, infos, hints, reserved := SizesIn(s, kept), InfosIn(s, t), HintsIn(s, t), ReservedIn(s, hex, t);
  }

  /** The head can be read, or is missing. */
  predicate HeadUsable(disk: Disk) { Head in disk ==> disk[Head].Readable? }

  /** Repairs a cache and opens it.  The repair fails exactly when there is no head record although some entry
      qualifies.  After it, the cache can be used exactly when the head can be read, that is unless it could
      not and nothing qualifies.  The cache then lists exactly the entries that qualify, newest first, has no
      other info, no reservation, and no link that leads elsewhere; its account is exact exactly when no
      upload is about to write a reservation. */
  method RepairAndOpen(r: Naming, s: Store, hex: nat -> string, measure: string -> nat, grants: seq<Grant>,
                       maxSz: nat, digest: Deps -> string)
    returns (ok: bool, usable: bool, c: DirCache?)
    requires NamesFit(r, hex) && Describes(s, hex) && 2 * maxSz < TWO_64
    requires forall q :: AllOf(q, s.records, SizesOf(r, s, measure), SizesOf(r, s, measure).Keys) ==> Sum(q) + maxSz < TWO_64
    ensures ok <==> Head in s.records || SizesOf(r, s, measure) == map[]
    ensures usable <==> if Head in s.records then s.records[Head].Readable? || SizesOf(r, s, measure) != map[]
                        else SizesOf(r, s, measure) == map[]
    ensures usable ==> c != null && fresh(c) && c.maxSz == maxSz && c.Valid() && c.Hinted()
    ensures usable ==> AllOf(c.ring, s.records, SizesOf(r, s, measure), SizesOf(r, s, measure).Keys) && Recent(c.ring)
    ensures usable ==> Orphans(c.Abs()) == map[] && LeadTo(c.hints, Names(c.ring))
    ensures usable ==> c.reserved == map[] && c.held == 0 && c.grants == grants && (Exact(c.Abs()) <==> Granted(grants) == 0)
    ensures usable ==> (Inv(c.Abs(), maxSz) <==> Sum(c.ring) <= maxSz)
  {
    var sizes, infos, hints, reserved := ReadLeft(r, s, hex, measure);
    var disk, q;
    ok, disk, q := Repair(s.records, sizes, false);
    if !ok || !HeadUsable(disk) { return ok, false, null; }
    usable := true;
    AllPositive(q, s.records, sizes);
    c := new DirCache.Reopen(maxSz, digest, Records(disk), infos, hints, reserved, grants, q);
    NoOrphan(c.Abs());
  }

  lemma {:induction false} NoOrphan(s: State)
    requires s.infos.Keys <= Names(s.ring)
    ensures Orphans(s) == map[]
  {
    assert Orphans(s).Keys == {};
  }

  lemma {:induction false} AllPositive(q: seq<Item>, disk: Disk, sizes: map<Name, nat>)
    requires AllOf(q, disk, sizes, sizes.Keys) && forall n :: n in sizes ==> sizes[n] > 0
    ensures Positive(q)
  {
    forall i | 0 <= i < |q|
      ensures q[i].sz > 0
    {
      assert q[i].name in sizes;
    }
  }

  /** One qualified entry and no head record: the repair fails. */
  method RepairWithoutHead(n: Name, lru: Lru, sz: nat) returns (ok: bool)
    requires n.Entry? && sz > 0
    ensures !ok
  {
    var disk', q;
    ok, disk', q := Repair(map[n := Readable(lru)], map[n := sz], false);
    assert n in map[n := sz];
  }

  /** A head that cannot be read and nothing else: the repair succeeds and leaves it as it is. */
  method GarbledHeadStays() returns (ok: bool, disk: Disk)
    ensures ok && disk == map[Head := Garbled] && !HeadUsable(disk)
  {
    var q;
    ok, disk, q := Repair(map[Head := Garbled], map[], false);
  }

  /** The names of the cache are as they should be. */
  lemma {:induction false} CacheNamesFit(hex: nat -> string)
    ensures NamesFit(CACHE_NAMES, hex)
  {
    CacheNamesValid();
    forall k | IsKeyName(k)
      ensures IsHint(k) && k != ""
    {
      KeyIsHint(k);
    }
    forall n: Name | n.Entry?
      ensures !IsAdminFile(EntryDirOf(n) + "info")
    {
      InfoIsNotAdmin(EntryDirOf(n));
    }
    forall k | '/' !in hex(k)
      ensures CACHE_NAMES.FateOf(ReservedPath(hex, k), Node.Regular) == Goes
    {
      ReservationsGo(hex, k, Node.Regular);
    }
  }

  lemma {:induction false} KeyIsHint(k: string)
    requires IsKeyName(k)
    ensures IsHint(k) && k != ""
  {
    KeyHasNoSlash(k);
  }

  lemma {:induction false} InfoIsNotAdmin(d: string)
    requires IsDir(d)
    ensures !IsAdminFile(d + "info")
  {
    UpOf(d, "info");
    if HEAD_S <= d + "info" {
      var name := (d + "info")[|HEAD_S|..];
      assert d + "info" == HEAD_S + name;
      if '/' !in name {
        UpOf(HEAD_S, name);
      }
    }
  }

  // ----- using the cache afterwards -----

  /** After a repair with no upload under way, every session of requests is accounted for. */
  method RepairAndServe(r: Naming, s: Store, hex: nat -> string, measure: string -> nat, maxSz: nat, digest: Deps -> string,
                        f: Format, rs: seq<Request>)
    returns (usable: bool, c: DirCache?)
    requires NamesFit(r, hex) && Describes(s, hex) && 2 * maxSz < TWO_64
    requires forall q :: AllOf(q, s.records, SizesOf(r, s, measure), SizesOf(r, s, measure).Keys) ==> Sum(q) + maxSz < TWO_64
    requires forall i :: 0 <= i < |rs| ==> Proper(rs[i])
    ensures usable ==> c != null && c.Valid() && c.Hinted()
    ensures usable ==> HeadOf(c.files).sz == Sum(c.ring) + Granted(c.grants) + TotalOf(c.reserved) + c.lost
  {
    var ok;
    ok, usable, c := RepairAndOpen(r, s, hex, measure, [], maxSz, digest);
    if usable {
      ghost var evs := Session(c, f, rs);
    }
  }

  /** What the head does not account for is taken from the entries: nothing is evicted as long as they fit with
      what is missing. */
  lemma {:induction false} ShortRoom(q: seq<Item>, short: nat, max: nat, newSz: nat)
    requires newSz <= max && short > 0
    ensures Sum(q) < short ==> RoomFor(q, 0 - short, max, newSz) == Broken
    ensures short <= Sum(q) <= max + short - newSz ==>
      RoomFor(q, 0 - short, max, newSz) == Made && Kept(q, max + short - newSz) == |q|
  {
    if Sum(q) <= max + short - newSz {
      KeptAll(q, max + short - newSz);
    }
  }

  /** An upload that was granted room before a repair and commits after it.  The repair has taken its bytes out of
      the account, which the commit does again: an assertion fails when the other entries are not that large,
      and otherwise the head accounts for that much less than the entries, which may exceed the maximum by it. */
  method LateCommit(c: DirCache, key: nat, sz: nat, e: Name, newSz: nat, now: int) returns (room: Room)
    requires c.Valid() && c.held == 0 && c.reserved == map[] && Grant(key, sz) in c.grants && sz > 0
    requires e.Entry? && e !in Names(c.ring) && newSz > 0
    modifies c
    ensures room == RoomFor(old(c.ring), 0 - sz, c.maxSz, newSz)
    ensures newSz <= c.maxSz && Sum(old(c.ring)) < sz ==> room == Broken
    ensures newSz <= c.maxSz && sz <= Sum(old(c.ring)) <= c.maxSz + sz - newSz ==>
      room == Made && c.ring == [Item(e, newSz, now)] + old(c.ring)
    ensures room == Made ==> Linked(c.files, c.ring) && HeadOf(c.files).sz + sz == Sum(c.ring) <= c.maxSz + sz
  {
    if newSz <= c.maxSz {
      ShortRoom(c.ring, sz, c.maxSz, newSz);
    }
    assert c.ring[..|c.ring|] == c.ring;
    LateWrite(c, key, sz);
    room := LateRoom(c, c.reserved[key], newSz);
    if room == Made {
      ListLate(c, e, newSz, now);
    }
  }

  method ListLate(c: DirCache, e: Name, newSz: nat, now: int)
    requires c.Shape() && Head in c.files && e.Entry? && e !in Names(c.ring) && newSz > 0
    modifies c`files, c`ring
    ensures Linked(c.files, c.ring) && c.ring == [Item(e, newSz, now)] + old(c.ring)
    ensures Sum(c.ring) == newSz + Sum(old(c.ring)) && HeadOf(c.files).sz == old(HeadOf(c.files).sz)
  {
    OneMoreListed(c.ring, Item(e, newSz, now), c.files.Keys);
    c.LruMkNewest(e, newSz, now);
  }

  /** A repair while one upload is under way: alone, it breaks the account when it commits. */
  method RepairUnderUpload(r: Naming, s: Store, hex: nat -> string, measure: string -> nat, maxSz: nat, digest: Deps -> string,
                           key: nat, sz: nat, e: Name, newSz: nat, now: int)
    returns (usable: bool, room: Room, c: DirCache?)
    requires NamesFit(r, hex) && Describes(s, hex) && 2 * maxSz < TWO_64
    requires forall q :: AllOf(q, s.records, SizesOf(r, s, measure), SizesOf(r, s, measure).Keys) ==> Sum(q) + maxSz < TWO_64
    requires e.Entry? && e !in SizesOf(r, s, measure) && sz > 0 && 0 < newSz <= maxSz
    ensures usable && SizesOf(r, s, measure) == map[] ==> room == Broken
    ensures usable && room == Made ==> c != null && HeadOf(c.files).sz + sz == Sum(c.ring)
  {
    var ok;
    room := NoRoom;
    ok, usable, c := RepairAndOpen(r, s, hex, measure, [Grant(key, sz)], maxSz, digest);
    if usable {
      EmptyIff(c.ring, s.records, SizesOf(r, s, measure));
      room := LateCommit(c, key, sz, e, newSz, now);
    }
  }

  /** The reservation is written. */
  method LateWrite(c: DirCache, key: nat, sz: nat)
    requires c.Valid() && c.held == 0 && c.reserved == map[] && Grant(key, sz) in c.grants
    modifies c`grants, c`reserved, c`lost
    ensures c.Shape() && HeadOf(c.files).sz == Sum(c.ring) && c.reserved == map[key := sz]
  {
    c.WriteReservation(key, sz);
  }

  /** Room is made in exchange for it. */
  method LateRoom(c: DirCache, sz: nat, newSz: nat) returns (room: Room)
    requires c.Shape() && HeadOf(c.files).sz == Sum(c.ring)
    modifies c`files, c`infos, c`ring
    ensures room == RoomFor(old(c.ring), 0 - sz, c.maxSz, newSz)
    ensures room == Made ==> c.Shape() && Head in c.files && HeadOf(c.files).sz + sz == Sum(c.ring) + newSz
    ensures room == Made ==> HeadOf(c.files).sz <= c.maxSz && Names(c.ring) <= Names(old(c.ring))
    ensures room == Made ==> newSz <= c.maxSz && c.ring == old(c.ring)[..Kept(old(c.ring), c.maxSz + sz - newSz)]
  {
    ghost var s := c.Abs();
    if newSz <= c.maxSz {
      EvictNames(s, c.maxSz + sz - newSz);
    }
    room := c.MakeRoom(sz, newSz);
  }
}
