/** Directories: files of 16-byte entries that behave as finite maps from names to inode numbers. */
module Directory {
  import opened Blocks
  import opened Volume
  import opened Layout
  import opened Ledger
  import opened Demand
  import opened FileSystem
  import opened Runs
  import opened Names

  const DIRSIZ := 14
  const ENTRY := 16
  const T_DIR: Short := 1

  type Name = s: seq<Byte> | |s| == DIRSIZ witness seq(DIRSIZ, _ => 0)

  type Ushort = x: int | 0 <= x < 0x1_0000

  /** One entry; inum 0 marks it empty. */
  datatype Dirent = Dirent(inum: Ushort, name: Name)

  function GetDirent(b: seq<Byte>): (e: Dirent)
    requires |b| == ENTRY
  {
    var lo: int, hi: int := b[0], b[1];
    Dirent(lo + 256 * hi, b[2..])
  }

  function SetDirent(e: Dirent): (b: seq<Byte>)
    ensures |b| == ENTRY && GetDirent(b) == e
  {
    var lo: Byte, hi: Byte := e.inum % 256, e.inum / 256;
    [lo, hi] + e.name
  }

  /** The entries of a directory whose bytes are c. */
  function Entries(c: seq<Byte>): (es: seq<Dirent>) {
    seq(|c| / ENTRY, k requires 0 <= k < |c| / ENTRY => GetDirent(c[ENTRY * k..ENTRY * k + ENTRY]))
  }

  /** Entry k lies at byte 16 * k: the inode number in two bytes, low one first, then 14 bytes of name. */
  lemma EntryBytes(c: seq<Byte>, k: nat, j: nat)
    requires k < |c| / 16 && j < 14
    ensures 16 * k + 16 <= |c| && k < |Entries(c)|
    ensures Entries(c)[k].inum == (c[16 * k] as int) + 256 * (c[16 * k + 1] as int) && Entries(c)[k].name[j] == c[16 * k + 2 + j]
  {
    assert 16 * (k + 1) <= |c|;
    var b := c[16 * k..16 * k + 16];
    assert b[2..][j] == b[2 + j] == c[16 * k + 2 + j];
  }

  /** Names are compared as strings of at most DIRSIZ bytes. */
  function Key(name: seq<Byte>): (k: seq<Byte>) {
    Cut(name, DIRSIZ)
  }

  predicate Matches(e: Dirent, name: seq<Byte>) {
    e.inum != 0 && Key(e.name) == Key(name)
  }

  /** The map a directory stands for: the first live entry of each name. */
  function Listing(es: seq<Dirent>): (m: map<seq<Byte>, Ushort>) {
    if |es| == 0 then map[]
    else if es[0].inum == 0 then Listing(es[1..])
    else Listing(es[1..])[Key(es[0].name) := es[0].inum]
  }

  /** What a lookup finds: an inode number, or 0. */
  function Lookup(es: seq<Dirent>, name: seq<Byte>): (inum: Ushort) {
    if Key(name) in Listing(es) then Listing(es)[Key(name)] else 0
  }

  /** The live names are pairwise different. */
  predicate Distinct(es: seq<Dirent>) {
    forall j, k | 0 <= j < k < |es| :: es[k].inum != 0 ==> !Matches(es[j], es[k].name)
  }

  /** No entry before k matches name. */
  predicate Misses(es: seq<Dirent>, k: nat, name: seq<Byte>) {
    k <= |es| && forall j | 0 <= j < k :: !Matches(es[j], name)
  }

  /** The first entry that matches name, or the end. */
  ghost function FirstOf(es: seq<Dirent>, name: seq<Byte>): (k: nat)
    ensures Misses(es, k, name) && (k < |es| ==> Matches(es[k], name))
  {
    if |es| == 0 || Matches(es[0], name) then 0 else 1 + FirstOf(es[1..], name)
  }

  lemma MissesMore(es: seq<Dirent>, k: nat, name: seq<Byte>)
    requires Misses(es, k, name) && k < |es| && !Matches(es[k], name)
    ensures Misses(es, k + 1, name)
  {
  }

  /** The first entry that matches decides a lookup. */
  lemma {:induction false} FirstMatch(es: seq<Dirent>, name: seq<Byte>, k: nat)
    requires Misses(es, k, name) && (k < |es| ==> Matches(es[k], name))
    ensures Lookup(es, name) == if k < |es| then es[k].inum else 0
    ensures Key(name) in Listing(es) <==> k < |es|
  {
    if 0 < k {
      assert es[1..][..k - 1] == es[1..k];
      FirstMatch(es[1..], name, k - 1);
    }
  }

  /** Filling empty slot k, or the slot after the last, with a live entry of a new name adds that
      name and changes no other. */
  lemma {:induction false} FillSlot(es: seq<Dirent>, k: nat, e: Dirent)
    requires k <= |es| && (k < |es| ==> es[k].inum == 0)
    requires Key(e.name) !in Listing(es)
    ensures Listing(es[..k] + [e] + (if k < |es| then es[k + 1..] else [])) ==
      if e.inum == 0 then Listing(es) else Listing(es)[Key(e.name) := e.inum]
  {
    var r := es[..k] + [e] + (if k < |es| then es[k + 1..] else []);
    if k == 0 {
      assert r[1..] == if |es| == 0 then [] else es[1..];
    } else {
      var t := es[1..];
      assert r[1..] == t[..k - 1] + [e] + (if k - 1 < |t| then t[k..] else []);
      FillSlot(t, k - 1, e);
    }
  }

  /** Emptying the entry of a name removes exactly that name. */
  lemma {:induction false} ClearSlot(es: seq<Dirent>, k: nat, e: Dirent)
    requires k < |es| && Distinct(es) && es[k].inum != 0 && e.inum == 0
    ensures Listing(es[k := e]) == Listing(es) - {Key(es[k].name)}
  {
    var r, t := es[k := e], es[1..];
    if k == 0 {
      assert r[1..] == t;
      forall j | 0 <= j < |t| ensures !Matches(t[j], es[0].name) {
        assert !Matches(es[0], es[j + 1].name) || es[j + 1].inum == 0;
      }
      FirstMatch(t, es[0].name, |t|);
    } else {
      assert r[1..] == t[k - 1 := e];
      assert Distinct(t) by {
        forall i, j | 0 <= i < j < |t| && t[j].inum != 0 ensures !Matches(t[i], t[j].name) {
          assert !Matches(es[i + 1], es[j + 1].name);
        }
      }
      ClearSlot(t, k - 1, e);
      assert !Matches(es[0], es[k].name);
    }
  }

  /** What dirlink makes of a directory that does not have the name yet: slot k is the first empty
      one, or the end. */
  function Linked(es: seq<Dirent>, k: nat, e: Dirent): (r: seq<Dirent>)
    requires k <= |es|
  {
    if k < |es| then es[k := e] else es + [e]
  }

  lemma LinkedListing(es: seq<Dirent>, k: nat, e: Dirent)
    requires k <= |es| && (k < |es| ==> es[k].inum == 0) && Key(e.name) !in Listing(es)
    ensures Listing(Linked(es, k, e)) == if e.inum == 0 then Listing(es) else Listing(es)[Key(e.name) := e.inum]
    ensures Distinct(es) ==> Distinct(Linked(es, k, e))
  {
    FillSlot(es, k, e);
    LinkedIs(es, k, e);
    LinkedDistinct(es, k, e);
  }

  lemma LinkedIs(es: seq<Dirent>, k: nat, e: Dirent)
    requires k <= |es|
    ensures Linked(es, k, e) == es[..k] + [e] + (if k < |es| then es[k + 1..] else [])
  {
  }

  lemma LinkedDistinct(es: seq<Dirent>, k: nat, e: Dirent)
    requires k <= |es| && (k < |es| ==> es[k].inum == 0) && Key(e.name) !in Listing(es)
    ensures Distinct(es) ==> Distinct(Linked(es, k, e))
  {
    var r := Linked(es, k, e);
    if Distinct(es) {
      forall i, j | 0 <= i < j < |r| && r[j].inum != 0 ensures !Matches(r[i], r[j].name) {
        if i != k && i < |es| { NoMatch(es, e.name, i); }
        if j != k && j < |es| { NoMatch(es, e.name, j); }
      }
    }
  }

  /** A name outside the listing matches no entry. */
  lemma {:induction false} NoMatch(es: seq<Dirent>, name: seq<Byte>, j: nat)
    requires j < |es| && Key(name) !in Listing(es)
    ensures !Matches(es[j], name)
  {
    if 0 < j { NoMatch(es[1..], name, j - 1); }
  }

  /** The entries of directory dp of volume v. */
  ghost function Dir(v: Vol, dp: nat): (es: seq<Dirent>)
    requires dp < |v.nodes|
  {
    Entries(Content(v, dp))
  }

  /** Filling holes in directory dp changes no entry and no size. */
  lemma GrewDir(v: Vol, r: Vol, dp: nat)
    requires Grew(v, r, dp) && SizesOk(v)
    ensures r.nodes[dp].size == v.nodes[dp].size && r.nodes[dp].kind == v.nodes[dp].kind && Dir(r, dp) == Dir(v, dp)
    ensures OthersKept(v, r, dp)
  {
    assert Content(r, dp) == Content(v, dp);
    forall j: nat | j < |v.nodes| && j != dp ensures Content(r, j) == Content(v, j) { }
  }

  /** A read of 16 bytes at a multiple of 16 is an entry. */
  lemma ReadEntry(v: Vol, r: Vol, dp: nat, k: nat, out: seq<Byte>)
    requires dp < |v.nodes| && Reading(v, r, dp, ENTRY * k, out) && |out| == ENTRY
    requires ENTRY * k + ENTRY <= v.nodes[dp].size
    ensures k < |Dir(v, dp)| && Dir(v, dp)[k] == GetDirent(out)
  {
    var c := Content(v, dp);
    assert c[ENTRY * k..ENTRY * k + ENTRY] == out;
  }

  /** Reading in directory dp leads from v0 to v: holes are filled, and without any nothing happens. */
  ghost predicate Scanned(v0: Vol, v: Vol, dp: nat) {
    Grew(v0, v, dp) && (NoHoles(v0, dp) ==> v == v0) && Spent(v0, v, dp, v0.nodes[dp].size)
  }

  lemma ScannedRefl(v: Vol, dp: nat)
    requires Own(v) && dp < |v.nodes|
    ensures Scanned(v, v, dp)
  {
    GrewRefl(v, dp);
    TouchedRefl(v, dp);
  }

  lemma ScannedTrans(v0: Vol, v: Vol, r: Vol, dp: nat)
    requires Scanned(v0, v, dp) && Scanned(v, r, dp) && SizesOk(v0)
    ensures Scanned(v0, r, dp) && Dir(r, dp) == Dir(v0, dp)
  {
    GrewTrans(v0, v, r, dp);
    GrewDir(v0, v, dp);
    GrewDir(v0, r, dp);
    SpentTrans(v0, v, r, dp, v0.nodes[dp].size);
  }

  /** What reading w bytes of one entry comes to, and what it spends. */
  lemma EntryRead(v: Vol, r: Vol, dp: nat, k: nat, w: nat, tot: nat, hang: bool, ok: (nat, nat) -> bool)
    requires Grew(v, r, dp) && Ended(v, r, dp, ENTRY * k, w, tot, hang, ok) && w <= ENTRY && ENTRY * k + w <= v.nodes[dp].size && ok(0, ENTRY)
    ensures Spent(v, r, dp, v.nodes[dp].size) && tot <= w
    ensures w == ENTRY ==> (if Room(v, dp, ENTRY * k, ENTRY) then tot == ENTRY && !hang else tot == 0)
    ensures w == ENTRY ==> Draws(StockOf(v, dp), StockOf(r, dp), Extent(Way(dp), ENTRY * k, ENTRY))
  {
    GrewTouched(v, r, dp);
    GoesNoFarther(StockOf(v, dp), Way(dp), ENTRY * k, w, 0, ok);
    EndedSpent(v, r, dp, ENTRY * k, w, tot, hang, ok, v.nodes[dp].size);
    if w == ENTRY {
      Within(k);
      OneChunk(StockOf(v, dp), Way(dp), ENTRY * k, ENTRY, ok);
    }
  }

  /** And how readi answers. */
  lemma EntryAnswer(v: Vol, r: Vol, dp: nat, k: nat, o: Outcome, tot: nat, ok: (nat, nat) -> bool)
    requires Grew(v, r, dp) && ENTRY * k < v.nodes[dp].size <= MAXBYTES && ok(0, ENTRY)
    requires HasRead(v, r, dp, ENTRY * k, Want(v.nodes[dp].size, ENTRY * k, ENTRY), tot, o, ok)
    ensures Spent(v, r, dp, v.nodes[dp].size) && (o == Ret(ENTRY) ==> tot == ENTRY)
    ensures o == Ret(ENTRY) <==> ENTRY * k + ENTRY <= v.nodes[dp].size && Room(v, dp, ENTRY * k, ENTRY)
    ensures ENTRY * k + ENTRY <= v.nodes[dp].size ==> Draws(StockOf(v, dp), StockOf(r, dp), Extent(Way(dp), ENTRY * k, ENTRY))
  {
    EntryRead(v, r, dp, k, Want(v.nodes[dp].size, ENTRY * k, ENTRY), tot, o.Hang?, ok);
  }

  /** readi of entry k. */
  method ReadBytes(fs: Fs, dp: nat, k: nat) returns (o: Outcome, de: seq<Byte>)
    requires fs.Valid() && dp in fs.cache && ENTRY * k < fs.vol.nodes[dp].size
    modifies fs`disk, fs`cache, fs`vol
    ensures fs.Valid() && fs.cache.Keys == old(fs.cache.Keys) && Scanned(old(fs.vol), fs.vol, dp)
    ensures NoHoles(old(fs.vol), dp) ==> fs.disk == old(fs.disk) && fs.cache == old(fs.cache)
    ensures Reading(old(fs.vol), fs.vol, dp, ENTRY * k, de) && (o == Ret(ENTRY) ==> |de| == ENTRY)
    ensures o == Ret(ENTRY) <==> ENTRY * k + ENTRY <= old(fs.vol).nodes[dp].size && Room(old(fs.vol), dp, ENTRY * k, ENTRY)
    ensures ENTRY * k + ENTRY <= old(fs.vol).nodes[dp].size ==>
      Draws(StockOf(old(fs.vol), dp), StockOf(fs.vol, dp), Extent(Way(dp), ENTRY * k, ENTRY))
  {
    ghost var v := fs.vol;
    var ok: (nat, nat) -> bool := (_, _) => true;
    o, de := fs.Readi(dp, ENTRY * k, ENTRY, ok);
    EntryAnswer(v, fs.vol, dp, k, o, |de|, ok);
  }

  /** Read entry k; a short read panics. */
  method ReadDirent(fs: Fs, dp: nat, k: nat) returns (panic: bool, e: Dirent)
    requires fs.Valid() && dp in fs.cache && ENTRY * k < fs.vol.nodes[dp].size
    modifies fs`disk, fs`cache, fs`vol
    ensures fs.Valid() && fs.cache.Keys == old(fs.cache.Keys) && Scanned(old(fs.vol), fs.vol, dp)
    ensures NoHoles(old(fs.vol), dp) ==> fs.disk == old(fs.disk) && fs.cache == old(fs.cache)
    ensures panic <==> ENTRY * k + ENTRY > old(fs.vol).nodes[dp].size || !Room(old(fs.vol), dp, ENTRY * k, ENTRY)
    ensures ENTRY * k + ENTRY <= old(fs.vol).nodes[dp].size ==>
      Draws(StockOf(old(fs.vol), dp), StockOf(fs.vol, dp), Extent(Way(dp), ENTRY * k, ENTRY))
    ensures !panic ==> k < |Dir(old(fs.vol), dp)| && e == Dir(old(fs.vol), dp)[k]
  {
    ghost var v := fs.vol;
    var o, de := ReadBytes(fs, dp, k);
    if o != Ret(ENTRY) {
      return true, Dirent(0, seq(DIRSIZ, _ => 0));
    }
    ReadEntry(v, fs.vol, dp, k, de);
    return false, GetDirent(de);
  }

  /** Every whole entry of the directory is scanned, so a ragged size is met at the end. */
  lemma Ragged(v: Vol, dp: nat, k: nat)
    requires dp < |v.nodes|
    ensures |Dir(v, dp)| == v.nodes[dp].size / ENTRY
    ensures k == v.nodes[dp].size / ENTRY && ENTRY * k < v.nodes[dp].size ==> v.nodes[dp].size % ENTRY != 0
  {
  }

  /** A scan of directory dp that ends at entry k, or at the end, panics: a hole before it cannot be filled,
      or the directory ends inside an entry. */
  ghost predicate Blocked(v: Vol, dp: nat, k: nat)
    requires dp < |v.nodes|
  {
    !Room(v, dp, 0, ScanEnd(v, dp, k)) || (k >= |Dir(v, dp)| && v.nodes[dp].size % ENTRY != 0)
  }

  /** How many bytes such a scan reads. */
  ghost function ScanEnd(v: Vol, dp: nat, k: nat): (n: nat)
    requires dp < |v.nodes|
  {
    if k < |Dir(v, dp)| then ENTRY * k + ENTRY else ENTRY * |Dir(v, dp)|
  }

  /** A scan that is to end at f stops at k before it. */
  lemma ScanStops(v: Vol, dp: nat, k: nat, f: nat, end: nat)
    requires dp < |v.nodes| && k <= f <= |Dir(v, dp)| && end == ENTRY * k + ENTRY
    requires if k == |Dir(v, dp)| then v.nodes[dp].size % ENTRY != 0 else !Room(v, dp, 0, end)
    ensures Blocked(v, dp, f)
  {
    if k < |Dir(v, dp)| {
      assert end <= ScanEnd(v, dp, f);
      RoomLess(v, dp, end, ScanEnd(v, dp, f));
    }
  }

  /** A scan ends at k, where it was to. */
  lemma ScanHits(v: Vol, dp: nat, k: nat, end: nat)
    requires dp < |v.nodes| && k < |Dir(v, dp)| && end == ENTRY * k + ENTRY && Room(v, dp, 0, end)
    ensures !Blocked(v, dp, k) && ScanEnd(v, dp, k) == end
  {
  }

  /** A scan ends at the end. */
  lemma ScanPasses(v: Vol, dp: nat, k: nat, off: nat)
    requires dp < |v.nodes| && k <= |Dir(v, dp)| && off == ENTRY * k >= v.nodes[dp].size && Room(v, dp, 0, off)
    ensures k == |Dir(v, dp)| && v.nodes[dp].size % ENTRY == 0 && off == v.nodes[dp].size
    ensures !Blocked(v, dp, k) && ScanEnd(v, dp, k) == off
  {
    Ragged(v, dp, k);
  }

  /** dirlookup panics on a file that is no directory, and where its scan does. */
  ghost predicate Unreadable(v: Vol, dp: nat, name: seq<Byte>)
    requires dp < |v.nodes|
  {
    v.nodes[dp].kind != T_DIR || Blocked(v, dp, FirstOf(Dir(v, dp), name))
  }

  /** One turn of a scan of the directory that was v0: entry k, or a panic. */
  method ScanNext(fs: Fs, dp: nat, k: nat, off: nat, end: nat, ghost v0: Vol) returns (panic: bool, e: Dirent)
    requires fs.Valid() && dp in fs.cache && Scanned(v0, fs.vol, dp) && SizesOk(v0)
    requires k <= |Dir(v0, dp)| && off == ENTRY * k < v0.nodes[dp].size && end == off + ENTRY && Fetches(v0, fs.vol, dp, off)
    modifies fs`disk, fs`cache, fs`vol
    ensures fs.Valid() && fs.cache.Keys == old(fs.cache.Keys) && Scanned(v0, fs.vol, dp)
    ensures NoHoles(v0, dp) ==> fs.disk == old(fs.disk) && fs.cache == old(fs.cache)
    ensures k == |Dir(v0, dp)| ==> v0.nodes[dp].size % ENTRY != 0
    ensures panic <==> k == |Dir(v0, dp)| || !Room(v0, dp, 0, end)
    ensures !panic ==> e == Dir(v0, dp)[k] && Fetches(v0, fs.vol, dp, end)
  {
    ghost var v := fs.vol;
    GrewDir(v0, v, dp);
    Ragged(v0, dp, k);
    panic, e := ReadDirent(fs, dp, k);
    ScannedTrans(v0, v, fs.vol, dp);
    FetchesRoom(v0, v, dp, off, ENTRY, end);
    if !panic {
      FetchesMore(v0, v, fs.vol, dp, off, ENTRY, end);
    }
  }

  /** Find name in directory dp: its inode number and the entry that holds it, or 0. */
  method Dirlookup(fs: Fs, dp: nat, name: seq<Byte>) returns (panic: bool, inum: Ushort, k: nat)
    requires fs.Valid() && dp in fs.cache
    modifies fs`disk, fs`cache, fs`vol
    ensures fs.Valid() && fs.cache.Keys == old(fs.cache.Keys) && Scanned(old(fs.vol), fs.vol, dp)
    ensures NoHoles(old(fs.vol), dp) ==> fs.disk == old(fs.disk) && fs.cache == old(fs.cache)
    ensures panic <==> Unreadable(old(fs.vol), dp, name)
    ensures !panic ==> Looked(old(fs.vol), fs.vol, dp, name, inum, k)
  {
    ghost var v0, es := fs.vol, Dir(fs.vol, dp);
    k, inum := 0, 0;
    var d := fs.cache[dp];
    assert NodeAt(fs.ino, fs.cache, dp) == v0.nodes[dp];
    ScannedRefl(v0, dp);
    if d.kind != T_DIR {
      return true, inum, k;
    }
    FetchesNone(v0, dp);
    var off := 0;
    while off < d.size
      invariant fs.Valid() && fs.cache.Keys == old(fs.cache.Keys) && Scanned(v0, fs.vol, dp)
      invariant NoHoles(v0, dp) ==> fs.disk == old(fs.disk) && fs.cache == old(fs.cache)
      invariant Misses(es, k, name) && off == ENTRY * k && Fetches(v0, fs.vol, dp, off)
    {
      var next := off + ENTRY;
      var bad, e := ScanNext(fs, dp, k, off, next, v0);
      if bad {
        ScanStops(v0, dp, k, FirstOf(es, name), next);
        return true, inum, k;
      }
      var r := Strncmp(name, e.name, DIRSIZ);
      if e.inum != 0 && r == 0 {
        Hit(v0, fs.vol, dp, name, k, next);
        return false, e.inum, k;
      }
      MissesMore(es, k, name);
      k, off := k + 1, next;
    }
    Missed(v0, fs.vol, dp, name, k, off);
    return false, 0, k;
  }

  /** What a lookup found, and which holes it filled on the way. */
  ghost predicate Looked(v: Vol, r: Vol, dp: nat, name: seq<Byte>, inum: Ushort, k: nat)
    requires dp < |v.nodes|
  {
    && inum == Lookup(Dir(v, dp), name) && k == FirstOf(Dir(v, dp), name) && (inum != 0 <==> k < |Dir(v, dp)|)
    && Fetches(v, r, dp, ScanEnd(v, dp, k))
  }

  lemma Hit(v: Vol, r: Vol, dp: nat, name: seq<Byte>, k: nat, end: nat)
    requires dp < |v.nodes| && v.nodes[dp].kind == T_DIR && Misses(Dir(v, dp), k, name)
    requires k < |Dir(v, dp)| && Matches(Dir(v, dp)[k], name) && end == ENTRY * k + ENTRY && Fetches(v, r, dp, end)
    ensures !Unreadable(v, dp, name) && Looked(v, r, dp, name, Dir(v, dp)[k].inum, k)
  {
    FirstMatch(Dir(v, dp), name, k);
    assert k == FirstOf(Dir(v, dp), name);
    FetchesFit(v, r, dp, end);
    ScanHits(v, dp, k, end);
  }

  lemma Missed(v: Vol, r: Vol, dp: nat, name: seq<Byte>, k: nat, off: nat)
    requires dp < |v.nodes| && v.nodes[dp].kind == T_DIR && Misses(Dir(v, dp), k, name)
    requires off == ENTRY * k >= v.nodes[dp].size && Fetches(v, r, dp, off)
    ensures !Unreadable(v, dp, name) && Looked(v, r, dp, name, 0, k)
  {
    FetchesFit(v, r, dp, off);
    ScanPasses(v, dp, k, off);
    FirstMatch(Dir(v, dp), name, k);
    assert k == FirstOf(Dir(v, dp), name);
  }

  /** Every entry before k is live. */
  predicate LiveTo(es: seq<Dirent>, k: nat) {
    k <= |es| && forall j | 0 <= j < k :: es[j].inum != 0
  }

  /** Entry k is the first empty one, or the one after the last. */
  predicate Vacant(es: seq<Dirent>, k: nat) {
    LiveTo(es, k) && (k < |es| ==> es[k].inum == 0)
  }

  ghost function FirstVacant(es: seq<Dirent>): (k: nat)
    ensures Vacant(es, k)
  {
    if |es| == 0 || es[0].inum == 0 then 0 else 1 + FirstVacant(es[1..])
  }

  lemma LiveMore(es: seq<Dirent>, k: nat)
    requires LiveTo(es, k) && k < |es| && es[k].inum != 0
    ensures LiveTo(es, k + 1)
  {
  }

  /** The scan for an empty entry ended at k, and filled the holes on the way. */
  ghost predicate Emptied(v: Vol, r: Vol, dp: nat, k: nat)
    requires dp < |v.nodes|
  {
    k == FirstVacant(Dir(v, dp)) && Fetches(v, r, dp, ScanEnd(v, dp, k))
  }

  lemma EmptyAt(v: Vol, r: Vol, dp: nat, k: nat, end: nat)
    requires dp < |v.nodes| && LiveTo(Dir(v, dp), k) && k < |Dir(v, dp)| && Dir(v, dp)[k].inum == 0
    requires end == ENTRY * k + ENTRY && Fetches(v, r, dp, end)
    ensures !Blocked(v, dp, FirstVacant(Dir(v, dp))) && Emptied(v, r, dp, k)
  {
    assert k == FirstVacant(Dir(v, dp));
    FetchesFit(v, r, dp, end);
    ScanHits(v, dp, k, end);
  }

  lemma NoneEmpty(v: Vol, r: Vol, dp: nat, k: nat, off: nat)
    requires dp < |v.nodes| && LiveTo(Dir(v, dp), k) && off == ENTRY * k >= v.nodes[dp].size && Fetches(v, r, dp, off)
    ensures !Blocked(v, dp, FirstVacant(Dir(v, dp))) && Emptied(v, r, dp, k)
  {
    FetchesFit(v, r, dp, off);
    ScanPasses(v, dp, k, off);
    assert k == FirstVacant(Dir(v, dp));
  }

  /** dirlink's second loop: the first empty entry, or the end. */
  method EmptySlot(fs: Fs, dp: nat) returns (panic: bool, k: nat)
    requires fs.Valid() && dp in fs.cache
    modifies fs`disk, fs`cache, fs`vol
    ensures fs.Valid() && fs.cache.Keys == old(fs.cache.Keys) && Scanned(old(fs.vol), fs.vol, dp)
    ensures NoHoles(old(fs.vol), dp) ==> fs.disk == old(fs.disk) && fs.cache == old(fs.cache)
    ensures panic <==> Blocked(old(fs.vol), dp, FirstVacant(Dir(old(fs.vol), dp)))
    ensures !panic ==> Emptied(old(fs.vol), fs.vol, dp, k)
  {
    ghost var v0, es := fs.vol, Dir(fs.vol, dp);
    var d := fs.cache[dp];
    assert NodeAt(fs.ino, fs.cache, dp) == v0.nodes[dp];
    ScannedRefl(v0, dp);
    FetchesNone(v0, dp);
    k := 0;
    var off := 0;
    while off < d.size
      invariant fs.Valid() && fs.cache.Keys == old(fs.cache.Keys) && Scanned(v0, fs.vol, dp)
      invariant NoHoles(v0, dp) ==> fs.disk == old(fs.disk) && fs.cache == old(fs.cache)
      invariant LiveTo(es, k) && off == ENTRY * k && Fetches(v0, fs.vol, dp, off)
    {
      var next := off + ENTRY;
      var bad, e := ScanNext(fs, dp, k, off, next, v0);
      if bad {
        ScanStops(v0, dp, k, FirstVacant(es), next);
        return true, k;
      }
      if e.inum == 0 {
        EmptyAt(v0, fs.vol, dp, k, next);
        return false, k;
      }
      LiveMore(es, k);
      k, off := k + 1, next;
    }
    NoneEmpty(v0, fs.vol, dp, k, off);
    return false, k;
  }

  lemma OverLength(n: nat, k: nat, m: nat)
    requires k <= n / ENTRY && (n % ENTRY == 0 || k < n / ENTRY) && m == Max(n, ENTRY * k + ENTRY)
    ensures m / ENTRY == if k < n / ENTRY then n / ENTRY else n / ENTRY + 1
  {
    if k < n / ENTRY {
      assert ENTRY * k + ENTRY <= n;
    } else {
      assert n == ENTRY * k && m == ENTRY * (k + 1);
    }
  }

  lemma OtherSlot(c: seq<Byte>, k: nat, b: seq<Byte>, j: nat)
    requires ENTRY * k <= |c| && |b| == ENTRY && j != k && j < |c| / ENTRY
    ensures ENTRY * j + ENTRY <= |c| <= |Over(c, ENTRY * k, b)|
    ensures Over(c, ENTRY * k, b)[ENTRY * j..ENTRY * j + ENTRY] == c[ENTRY * j..ENTRY * j + ENTRY]
  {
    assert ENTRY * (j + 1) <= |c|;
    var r := Over(c, ENTRY * k, b);
    assert if j < k then ENTRY * (j + 1) <= ENTRY * k else ENTRY * (k + 1) <= ENTRY * j;
    forall x | ENTRY * j <= x < ENTRY * j + ENTRY ensures r[x] == c[x] {
    }
  }

  /** Storing an entry over slot k, or at the end. */
  lemma StoreEntry(c: seq<Byte>, k: nat, e: Dirent)
    requires k <= |c| / ENTRY && (|c| % ENTRY == 0 || k < |c| / ENTRY)
    ensures Entries(Over(c, ENTRY * k, SetDirent(e))) == Linked(Entries(c), k, e)
  {
    var b, r := SetDirent(e), Over(c, ENTRY * k, SetDirent(e));
    OverLength(|c|, k, |r|);
    forall j: nat | j < |r| / ENTRY ensures GetDirent(r[ENTRY * j..ENTRY * j + ENTRY]) == Linked(Entries(c), k, e)[j] {
      if j == k {
        assert r[ENTRY * j..ENTRY * j + ENTRY] == b;
      } else {
        OtherSlot(c, k, b, j);
      }
    }
  }

  /** A 16-byte write at a multiple of 16 lies in one block. */
  lemma Within(k: nat)
    ensures Chunk(ENTRY * k, ENTRY) == ENTRY
  {
    assert ENTRY * k % BSIZE == ENTRY * (k % 32);
  }

  /** An operation on directory dp left the contents of every other file alone. */
  ghost predicate OthersKept(v: Vol, r: Vol, dp: nat) {
    |r.nodes| == |v.nodes| && forall j: nat {:trigger Content(r, j)} | j < |v.nodes| && j != dp :: Content(r, j) == Content(v, j)
  }

  /** Entry k is one of the directory's, or the next after them. */
  ghost predicate Fits(v: Vol, dp: nat, k: nat)
    requires dp < |v.nodes|
  {
    k <= |Dir(v, dp)| && (v.nodes[dp].size % ENTRY == 0 || k < |Dir(v, dp)|)
  }

  /** What a write of tot bytes of an entry did to the directory: all or nothing. */
  lemma WroteEntry(v: Vol, r: Vol, dp: nat, k: nat, e: Dirent, tot: nat)
    requires (tot == 0 || tot == ENTRY) && FileWritten(v, r, dp, ENTRY * k, SetDirent(e)[..tot])
    requires SizesOk(v) && Fits(v, dp, k) && ENTRY * k + ENTRY <= MAXBYTES
    ensures OthersKept(v, r, dp) && Dir(r, dp) == if tot == 0 then Dir(v, dp) else Linked(Dir(v, dp), k, e)
  {
    Ragged(v, dp, k);
    forall j: nat | j < |v.nodes| ensures j != dp ==> Content(r, j) == Content(v, j) {
      WrittenContent(v, r, dp, ENTRY * k, SetDirent(e)[..tot], j);
    }
    WrittenContent(v, r, dp, ENTRY * k, SetDirent(e)[..tot], dp);
    if tot == 0 {
      assert Over(Content(v, dp), ENTRY * k, []) == Content(v, dp);
    } else {
      assert SetDirent(e)[..tot] == SetDirent(e);
      StoreEntry(Content(v, dp), k, e);
    }
  }

  /** Where directory dp ends once entry k is in it. */
  ghost function EndWith(v: Vol, dp: nat, k: nat): (n: nat)
    requires dp < |v.nodes|
  {
    Max(v.nodes[dp].size, ENTRY * k + ENTRY)
  }

  /** bmap stops the machine in the k bytes at off: past the indirect blocks an index block lacks too. */
  ghost predicate Overtaxed(v: Vol, dp: nat, off: nat, k: nat) {
    off >= FLAT && Free(v) + 1 < Need(Taken(v, dp), Way(dp), off, k)
  }

  /** What writing an entry comes to, and what it spends. */
  lemma EntryWritten(v: Vol, r: Vol, dp: nat, k: nat, tot: nat, hang: bool, ok: (nat, nat) -> bool, end: nat)
    requires Touched(v, r, dp) && Ended(v, r, dp, ENTRY * k, ENTRY, tot, hang, ok) && ok(0, ENTRY) && end == EndWith(v, dp, k)
    ensures Spent(v, r, dp, end)
    ensures if Room(v, dp, ENTRY * k, ENTRY) then tot == ENTRY && !hang else tot == 0 && hang == Overtaxed(v, dp, ENTRY * k, ENTRY)
  {
    Within(k);
    OneChunk(StockOf(v, dp), Way(dp), ENTRY * k, ENTRY, ok);
    EndedSpent(v, r, dp, ENTRY * k, ENTRY, tot, hang, ok, end);
  }

  /** writei of one entry: it is stored whole, or not at all because there is no block for it. */
  method WriteDirent(fs: Fs, dp: nat, k: nat, e: Dirent, ghost end: nat) returns (o: Outcome)
    requires fs.Valid() && dp in fs.cache && Fits(fs.vol, dp, k) && end == EndWith(fs.vol, dp, k)
    modifies fs
    ensures fs.Valid() && fs.cache.Keys == old(fs.cache.Keys) && Spent(old(fs.vol), fs.vol, dp, end)
    ensures o.Ret? ==> (NoHoles(old(fs.vol), dp) ==> NoHoles(fs.vol, dp)) && OthersKept(old(fs.vol), fs.vol, dp)
    ensures o == Ret(-1) <==> ENTRY * k + ENTRY > MAXBYTES
    ensures o == Ret(ENTRY) <==> ENTRY * k + ENTRY <= MAXBYTES && Room(old(fs.vol), dp, ENTRY * k, ENTRY)
    ensures o.Hang? <==> ENTRY * k + ENTRY <= MAXBYTES && !Room(old(fs.vol), dp, ENTRY * k, ENTRY) && Overtaxed(old(fs.vol), dp, ENTRY * k, ENTRY)
    ensures o.Ret? ==> Dir(fs.vol, dp) == if o.value == ENTRY then Linked(Dir(old(fs.vol), dp), k, e) else Dir(old(fs.vol), dp)
  {
    ghost var v := fs.vol;
    Ragged(v, dp, k);
    var ok: (nat, nat) -> bool := (_, _) => true;
    o := fs.Writei(dp, ENTRY * k, SetDirent(e), ok);
    if o.Hang? {
      ghost var tot: nat :| Ended(v, fs.vol, dp, ENTRY * k, ENTRY, tot, true, ok);
      EntryWritten(v, fs.vol, dp, k, tot, true, ok, end);
    } else if o.value != -1 {
      EntryWritten(v, fs.vol, dp, k, o.value, false, ok, end);
      WroteEntry(v, fs.vol, dp, k, e, o.value);
    }
  }

  /** The first half of dirlink: -1 if the name is there, else 0 and the entry to use. */
  method PlaceFor(fs: Fs, dp: nat, name: seq<Byte>) returns (o: Outcome, k: nat)
    requires fs.Valid() && dp in fs.cache
    modifies fs`disk, fs`cache, fs`vol
    ensures fs.Valid() && fs.cache.Keys == old(fs.cache.Keys) && Scanned(old(fs.vol), fs.vol, dp)
    ensures o == if Unreadable(old(fs.vol), dp, name) then Hang else Ret(if Lookup(Dir(old(fs.vol), dp), name) != 0 then -1 else 0)
    ensures o == Ret(0) ==> k == FirstVacant(Dir(old(fs.vol), dp)) && old(fs.vol).nodes[dp].size % ENTRY == 0
    ensures o == Ret(0) ==> Fetches(old(fs.vol), fs.vol, dp, old(fs.vol).nodes[dp].size)
  {
    ghost var v := fs.vol;
    k := 0;
    var panic, found, j := Dirlookup(fs, dp, name);
    if panic {
      return Hang, k;
    }
    if found != 0 {
      return Ret(-1), k;
    }
    ghost var v1 := fs.vol;
    GrewDir(v, v1, dp);
    AllRead(v, v1, dp, name, j);
    panic, k := EmptySlot(fs, dp);
    ScannedTrans(v, v1, fs.vol, dp);
    Rescan(v, v1, fs.vol, dp, FirstVacant(Dir(v, dp)));
    o := Ret(0);
  }

  /** A lookup that finds nothing reads the whole directory. */
  lemma AllRead(v: Vol, r: Vol, dp: nat, name: seq<Byte>, k: nat)
    requires dp < |v.nodes| && !Unreadable(v, dp, name) && Looked(v, r, dp, name, 0, k)
    ensures v.nodes[dp].size % ENTRY == 0 && Fetches(v, r, dp, v.nodes[dp].size)
  {
    Ragged(v, dp, k);
    assert ScanEnd(v, dp, k) == v.nodes[dp].size;
  }

  /** A scan after a whole one meets no hole. */
  lemma Rescan(v: Vol, r: Vol, q: Vol, dp: nat, k: nat)
    requires dp < |v.nodes| == |r.nodes| && v.nodes[dp].size == r.nodes[dp].size && Dir(r, dp) == Dir(v, dp)
    requires v.nodes[dp].size % ENTRY == 0 && Fetches(v, r, dp, v.nodes[dp].size)
    ensures !Blocked(r, dp, k) && (Fetches(r, q, dp, ScanEnd(r, dp, k)) ==> Fetches(v, q, dp, v.nodes[dp].size))
  {
    var size, end := v.nodes[dp].size, ScanEnd(r, dp, k);
    Ragged(v, dp, k);
    if k < |Dir(v, dp)| { EntryIn(size, k); }
    FetchesAgain(v, r, dp, size, 0, end);
    if Fetches(r, q, dp, end) { FetchesOnce(v, r, q, dp, size, end); }
  }

  lemma OthersTrans(v: Vol, r: Vol, q: Vol, dp: nat)
    requires OthersKept(v, r, dp) && OthersKept(r, q, dp)
    ensures OthersKept(v, q, dp)
  {
    forall j: nat | j < |v.nodes| && j != dp ensures Content(q, j) == Content(v, j) {
      assert Content(r, j) == Content(v, j);
    }
  }

  /** What writing entry k of a directory whose other entries were read comes to. */
  ghost function EntryReply(v: Vol, dp: nat, k: nat): (o: Outcome)
    requires dp < |v.nodes|
  {
    if ENTRY * k + ENTRY > MAXBYTES then Ret(-1)
    else if Room(v, dp, 0, EndWith(v, dp, k)) then Ret(0)
    else if ENTRY * k >= FLAT && Free(v) + 1 < Need(Taken(v, dp), Way(dp), 0, EndWith(v, dp, k)) then Hang
    else Ret(-1)
  }

  /** dirlink's reply, from the directory before it. */
  ghost function LinkReply(v: Vol, dp: nat, name: seq<Byte>): (o: Outcome)
    requires dp < |v.nodes|
  {
    if Unreadable(v, dp, name) then Hang
    else if Lookup(Dir(v, dp), name) != 0 then Ret(-1)
    else EntryReply(v, dp, FirstVacant(Dir(v, dp)))
  }

  /** The second half: the entry is written. v0 is the directory before the first half, n its end with it. */
  method LinkAt(fs: Fs, dp: nat, k: nat, name: seq<Byte>, inum: Word32, ghost v0: Vol, ghost n: nat) returns (o: Outcome)
    requires fs.Valid() && dp in fs.cache && Scanned(v0, fs.vol, dp) && SizesOk(v0) && n == EndWith(v0, dp, k)
    requires Vacant(Dir(v0, dp), k) && v0.nodes[dp].size % ENTRY == 0 && Lookup(Dir(v0, dp), name) == 0
    requires Fetches(v0, fs.vol, dp, v0.nodes[dp].size)
    modifies fs
    ensures fs.Valid() && fs.cache.Keys == old(fs.cache.Keys) && Spent(v0, fs.vol, dp, n)
    ensures o == EntryReply(v0, dp, k)
    ensures o.Ret? ==> OthersKept(v0, fs.vol, dp) && (NoHoles(v0, dp) ==> NoHoles(fs.vol, dp))
    ensures o == Ret(-1) ==> Dir(fs.vol, dp) == Dir(v0, dp)
    ensures o == Ret(0) ==> AddsName(Dir(v0, dp), Dir(fs.vol, dp), k, name, inum)
  {
    ghost var v1 := fs.vol;
    GrewDir(v0, v1, dp);
    Ragged(v0, dp, k);
    SpentMore(v0, v1, dp, v0.nodes[dp].size, n);
    var field := Strncpy(name, DIRSIZ);
    o := WriteDirent(fs, dp, k, Dirent(inum % 0x1_0000, field), n);
    SpentTrans(v0, v1, fs.vol, dp, n);
    EndIs(v0.nodes[dp].size, k, ENTRY * k);
    RoomThere(v0, v1, dp, v0.nodes[dp].size, ENTRY * k, n);
    if o == Ret(ENTRY) {
      Added(Dir(v0, dp), k, Dirent(inum % 0x1_0000, field), name, inum);
    }
    if o.Ret? {
      OthersTrans(v0, v1, fs.vol, dp);
      o := Ret(if o.value == ENTRY then 0 else -1);
    }
  }

  /** Whether there is room for the entry at off can be told before the scan. */
  lemma RoomThere(v: Vol, r: Vol, dp: nat, size: nat, off: nat, n: nat)
    requires Fetches(v, r, dp, size) && (off + ENTRY <= size == n || (off == size && n == off + ENTRY))
    ensures Room(r, dp, off, ENTRY) <==> Room(v, dp, 0, n)
    ensures !Room(v, dp, 0, n) ==> (Overtaxed(r, dp, off, ENTRY) <==> off >= FLAT && Free(v) + 1 < Need(Taken(v, dp), Way(dp), 0, n))
  {
    if off == size {
      FetchesRoom(v, r, dp, off, ENTRY, n);
    } else {
      FetchesFit(v, r, dp, size);
      FetchesAgain(v, r, dp, size, off, ENTRY);
    }
  }

  /** Entry k lies in the directory, or behind its end. */
  lemma EndIs(n: nat, k: nat, off: nat)
    requires k <= n / ENTRY && n % ENTRY == 0 && off == ENTRY * k
    ensures (off + ENTRY <= n && Max(n, off + ENTRY) == n) || (off == n && Max(n, off + ENTRY) == off + ENTRY)
  {
    if k < n / ENTRY { EntryIn(n, k); }
  }

  /** Add (name, inum) to directory dp, in its first empty entry or behind the last. */
  method Dirlink(fs: Fs, dp: nat, name: seq<Byte>, inum: Word32) returns (o: Outcome)
    requires fs.Valid() && dp in fs.cache
    modifies fs
    ensures fs.Valid() && fs.cache.Keys == old(fs.cache.Keys) && o == LinkReply(old(fs.vol), dp, name)
    ensures Spent(old(fs.vol), fs.vol, dp, EndWith(old(fs.vol), dp, FirstVacant(Dir(old(fs.vol), dp))))
    ensures o.Ret? ==> (o.value == 0 || o.value == -1) && OthersKept(old(fs.vol), fs.vol, dp)
    ensures o.Ret? && NoHoles(old(fs.vol), dp) ==> NoHoles(fs.vol, dp)
    ensures o == Ret(-1) ==> Dir(fs.vol, dp) == Dir(old(fs.vol), dp)
    ensures o == Ret(0) ==> AddsName(Dir(old(fs.vol), dp), Dir(fs.vol, dp), FirstVacant(Dir(old(fs.vol), dp)), name, inum)
  {
    ghost var v, slot := fs.vol, FirstVacant(Dir(fs.vol, dp));
    var k;
    o, k := PlaceFor(fs, dp, name);
    if o == Ret(0) {
      o := LinkAt(fs, dp, k, name, inum, v, EndWith(v, dp, slot));
    } else {
      GrewDir(v, fs.vol, dp);
      SpentMore(v, fs.vol, dp, v.nodes[dp].size, EndWith(v, dp, slot));
    }
  }

  /** With room for the whole directory only a ragged end keeps a name that is not there from being looked up. */
  lemma ReadAll(v: Vol, dp: nat, name: seq<Byte>, n: nat)
    requires dp < |v.nodes| && Lookup(Dir(v, dp), name) == 0 && v.nodes[dp].size <= n && Room(v, dp, 0, n)
    ensures Unreadable(v, dp, name) <==> v.nodes[dp].kind != T_DIR || v.nodes[dp].size % ENTRY != 0
  {
    var f := FirstOf(Dir(v, dp), name);
    FirstMatch(Dir(v, dp), name, f);
    Ragged(v, dp, f);
    if !Room(v, dp, 0, ScanEnd(v, dp, f)) { RoomLess(v, dp, ScanEnd(v, dp, f), n); }
  }

  /** A name that is not there is looked up in a directory that is not ragged. */
  lemma ReadEven(v: Vol, dp: nat, name: seq<Byte>)
    requires dp < |v.nodes| && Lookup(Dir(v, dp), name) == 0 && !Unreadable(v, dp, name)
    ensures v.nodes[dp].kind == T_DIR && v.nodes[dp].size % ENTRY == 0
  {
    FirstMatch(Dir(v, dp), name, FirstOf(Dir(v, dp), name));
  }

  /** Exactly when dirlink succeeds. */
  lemma LinksIff(v: Vol, dp: nat, name: seq<Byte>)
    requires dp < |v.nodes|
    ensures var k := FirstVacant(Dir(v, dp));
      LinkReply(v, dp, name) == Ret(0) <==>
      && v.nodes[dp].kind == T_DIR && v.nodes[dp].size % ENTRY == 0 && Lookup(Dir(v, dp), name) == 0
      && ENTRY * k + ENTRY <= MAXBYTES && Room(v, dp, 0, EndWith(v, dp, k))
  {
    var n := EndWith(v, dp, FirstVacant(Dir(v, dp)));
    if Lookup(Dir(v, dp), name) == 0 {
      if Room(v, dp, 0, n) { ReadAll(v, dp, name, n); }
      if !Unreadable(v, dp, name) { ReadEven(v, dp, name); }
    }
  }

  /** Up to 71680 bytes, the direct and indirect blocks, dirlink returns if its lookup does. */
  lemma LinkReturns(v: Vol, dp: nat, name: seq<Byte>)
    requires dp < |v.nodes| && !Unreadable(v, dp, name) && 16 * FirstVacant(Dir(v, dp)) < 71680
    ensures LinkReply(v, dp, name) == Ret(-1) || LinkReply(v, dp, name) == Ret(0)
    ensures LinkReply(v, dp, name) == Ret(-1) <==>
      Lookup(Dir(v, dp), name) != 0 || !Room(v, dp, 0, EndWith(v, dp, FirstVacant(Dir(v, dp))))
  {
  }

  /** In a directory without holes that has an empty entry and can be read dirlink fails exactly if the name is there. */
  lemma LinkSolid(v: Vol, dp: nat, name: seq<Byte>)
    requires Own(v) && SizesOk(v) && dp < |v.nodes| && NoHoles(v, dp) && FirstVacant(Dir(v, dp)) < |Dir(v, dp)|
    requires v.nodes[dp].kind == T_DIR && v.nodes[dp].size % ENTRY == 0
    ensures LinkReply(v, dp, name) == Ret(if Lookup(Dir(v, dp), name) != 0 then -1 else 0)
  {
    var f, k := FirstOf(Dir(v, dp), name), FirstVacant(Dir(v, dp));
    Ragged(v, dp, f);
    Lacking(v, dp, k);
    ReadSolid(v, dp, f);
  }

  /** Without holes only a ragged end blocks a scan. */
  lemma ReadSolid(v: Vol, dp: nat, k: nat)
    requires Own(v) && SizesOk(v) && dp < |v.nodes| && NoHoles(v, dp)
    ensures Blocked(v, dp, k) <==> k >= |Dir(v, dp)| && v.nodes[dp].size % ENTRY != 0
  {
    Ragged(v, dp, k);
    if k < |Dir(v, dp)| { EntryIn(v.nodes[dp].size, k); }
    WholeRoom(v, dp, 0, ScanEnd(v, dp, k));
  }

  lemma EntryIn(n: nat, k: nat)
    requires k < n / ENTRY
    ensures ENTRY * k + ENTRY <= n
  {
    assert ENTRY * (k + 1) <= n;
  }

  /** A directory without holes has room for the entries it has. */
  lemma Lacking(v: Vol, dp: nat, k: nat)
    requires Own(v) && SizesOk(v) && dp < |v.nodes| && NoHoles(v, dp) && k < |Dir(v, dp)|
    ensures Room(v, dp, 0, EndWith(v, dp, k)) && ENTRY * k + ENTRY <= v.nodes[dp].size
  {
    Ragged(v, dp, k);
    EntryIn(v.nodes[dp].size, k);
    WholeRoom(v, dp, 0, v.nodes[dp].size);
  }

  lemma RoomLess(v: Vol, dp: nat, n: nat, m: nat)
    requires !Room(v, dp, 0, n) && n <= m
    ensures !Room(v, dp, 0, m)
  {
    NeedMore(Taken(v, dp), Way(dp), 0, n, m);
  }

  /** What a successful dirlink(name, inum) promises: the first empty slot, or a new one at the end,
      now holds the entry; the name was new; a lookup of it finds inum cut to 16 bits, and every other
      lookup is as before. */
  ghost predicate AddsName(es: seq<Dirent>, r: seq<Dirent>, k: nat, name: seq<Byte>, inum: Word32) {
    && k <= |es| && |r| == (if k < |es| then |es| else |es| + 1)
    && Vacant(es, k)
    && (forall j | 0 <= j < |es| && j != k :: r[j] == es[j])
    && r[k].inum == inum % 0x1_0000 && Key(r[k].name) == Key(name)
    && Lookup(es, name) == 0
    && (forall n {:trigger Lookup(r, n)} :: Lookup(r, n) == if Key(n) == Key(name) then inum % 0x1_0000 else Lookup(es, n))
    && (Distinct(es) ==> Distinct(r))
  }

  lemma Added(es: seq<Dirent>, k: nat, e: Dirent, name: seq<Byte>, inum: Word32)
    requires Vacant(es, k)
    requires e.inum == inum % 0x1_0000 && Key(e.name) == Key(name) && Lookup(es, name) == 0
    ensures AddsName(es, Linked(es, k, e), k, name, inum)
  {
    LiveListing(es);
    LinkedListing(es, k, e);
  }

  /** No listed name maps to 0. */
  lemma {:induction false} LiveListing(es: seq<Dirent>)
    ensures forall n | n in Listing(es) :: Listing(es)[n] != 0
  {
    if |es| > 0 { LiveListing(es[1..]); }
  }

  /** A linked name is found, with the number it was given, exactly when that number fits the entry. */
  lemma FoundIff(es: seq<Dirent>, r: seq<Dirent>, k: nat, name: seq<Byte>, inum: Word32)
    requires AddsName(es, r, k, name, inum) && inum > 0
    ensures Lookup(r, name) == inum <==> inum < 0x1_0000
  {
    assert Lookup(r, name) == inum % 0x1_0000;
  }

  /** Linking inode 65537 in any directory that lacks the name makes the name lead to inode 1. */
  lemma NumberLost(es: seq<Dirent>, k: nat, name: Name)
    requires Vacant(es, k) && Lookup(es, name) == 0
    ensures var r := Linked(es, k, Dirent(65537 % 0x1_0000, name)); AddsName(es, r, k, name, 65537) && Lookup(r, name) == 1
  {
    Added(es, k, Dirent(65537 % 0x1_0000, name), name, 65537);
  }

  /** Emptying entry k changes no lookup of another name. */
  lemma {:induction false} ClearOther(es: seq<Dirent>, k: nat, e: Dirent, n: seq<Byte>)
    requires k < |es| && es[k].inum != 0 && e.inum == 0 && Key(n) != Key(es[k].name)
    ensures Lookup(es[k := e], n) == Lookup(es, n)
  {
    if k == 0 {
      assert es[k := e][1..] == es[1..];
    } else {
      assert es[k := e][1..] == es[1..][k - 1 := e];
      ClearOther(es[1..], k - 1, e, n);
    }
  }

  /** Emptying the first entry of a name leaves what a lookup of it finds behind that entry. */
  lemma {:induction false} ClearFirst(es: seq<Dirent>, k: nat, e: Dirent, name: seq<Byte>)
    requires k < |es| && Misses(es, k, name) && Matches(es[k], name) && e.inum == 0
    ensures Lookup(es[k := e], name) == Lookup(es[k + 1..], name)
  {
    if k == 0 {
      assert es[k := e][1..] == es[1..];
    } else {
      assert es[k := e][1..] == es[1..][k - 1 := e] && es[1..][k..] == es[k + 1..];
      ClearFirst(es[1..], k - 1, e, name);
    }
  }

  /** What zeroing the first entry of a name, entry k, makes of a directory. */
  ghost predicate Clears(es: seq<Dirent>, r: seq<Dirent>, k: nat, name: seq<Byte>) {
    && k < |es| == |r| && Misses(es, k, name) && Matches(es[k], name) && r == es[k := r[k]] && r[k].inum == 0
    && (forall n {:trigger Lookup(r, n)} :: Lookup(r, n) == Lookup(if Key(n) == Key(name) then es[k + 1..] else es, n))
    && (Distinct(es) ==> Distinct(r) && Listing(r) == Listing(es) - {Key(name)})
  }

  lemma Cleared(es: seq<Dirent>, k: nat, e: Dirent, name: seq<Byte>)
    requires k < |es| && Misses(es, k, name) && Matches(es[k], name) && e.inum == 0
    ensures Clears(es, es[k := e], k, name)
  {
    var r := es[k := e];
    forall n ensures Lookup(r, n) == Lookup(if Key(n) == Key(name) then es[k + 1..] else es, n) {
      if Key(n) == Key(name) {
        assert forall j | 0 <= j < k :: !Matches(es[j], n);
        ClearFirst(es, k, e, n);
      } else {
        ClearOther(es, k, e, n);
      }
    }
    if Distinct(es) { ClearSlot(es, k, e); }
  }

  /** unlink's change to the directory: the first entry of name, entry k, is zeroed. */
  method ClearName(fs: Fs, dp: nat, name: seq<Byte>) returns (o: Outcome, k: nat)
    requires fs.Valid() && dp in fs.cache
    modifies fs
    ensures fs.Valid() && fs.cache.Keys == old(fs.cache.Keys) && Spent(old(fs.vol), fs.vol, dp, old(fs.vol).nodes[dp].size)
    ensures o == if Unreadable(old(fs.vol), dp, name) then Hang else Ret(if Lookup(Dir(old(fs.vol), dp), name) == 0 then -1 else 0)
    ensures o == Ret(-1) ==> Scanned(old(fs.vol), fs.vol, dp)
    ensures o == Ret(0) ==>
      && (NoHoles(old(fs.vol), dp) ==> NoHoles(fs.vol, dp)) && OthersKept(old(fs.vol), fs.vol, dp)
      && Clears(Dir(old(fs.vol), dp), Dir(fs.vol, dp), k, name)
  {
    ghost var v := fs.vol;
    var panic, found;
    panic, found, k := Dirlookup(fs, dp, name);
    if panic {
      return Hang, k;
    }
    if found == 0 {
      return Ret(-1), k;
    }
    ClearAt(fs, dp, k, name, v);
    o := Ret(0);
  }

  /** The second half of it: entry k, which dirlookup read last, is zeroed. v0 is the directory before that. */
  method ClearAt(fs: Fs, dp: nat, k: nat, name: seq<Byte>, ghost v0: Vol)
    requires fs.Valid() && dp in fs.cache && Scanned(v0, fs.vol, dp) && SizesOk(v0)
    requires k < |Dir(v0, dp)| && k == FirstOf(Dir(v0, dp), name) && Fetches(v0, fs.vol, dp, ENTRY * k + ENTRY)
    modifies fs
    ensures fs.Valid() && fs.cache.Keys == old(fs.cache.Keys) && Spent(v0, fs.vol, dp, v0.nodes[dp].size)
    ensures (NoHoles(v0, dp) ==> NoHoles(fs.vol, dp)) && OthersKept(v0, fs.vol, dp) && Clears(Dir(v0, dp), Dir(fs.vol, dp), k, name)
  {
    ghost var v1, n := fs.vol, v0.nodes[dp].size;
    GrewDir(v0, v1, dp);
    Ragged(v0, dp, k);
    EntryIn(n, k);
    FetchesAgain(v0, v1, dp, ENTRY * k + ENTRY, ENTRY * k, ENTRY);
    var e := Dirent(0, seq(DIRSIZ, _ => 0));
    var _ := WriteDirent(fs, dp, k, e, n);
    SpentTrans(v0, v1, fs.vol, dp, n);
    OthersTrans(v0, v1, fs.vol, dp);
    Cleared(Dir(v0, dp), k, e, name);
  }
}
