/**
  A directory on disk as a sequence of entries, and so as a map: what search, create, unlink
  and listing do to it.
 */
module DirectoryContent {
  import opened Params
  import opened Disk
  import opened Bytes
  import opened FreeChain
  import opened BlockTree
  import opened FileMap
  import opened FileGrowth
  import opened FileRelease
  import opened FileContent
  import opened BMap
  import opened FileWrite
  import opened FileRead
  import opened FileTruncate
  import opened DirectoryEntry
  import opened Directory

  // A directory file that holds exactly the entries `es`.
  ghost predicate DirIs(d: Store, st: seq<Word>, nums: Slots, size: nat, others: multiset<Word>, es: seq<Entry>) {
    && Good(d, st, nums, size, others)
    && size == 64 * |es|
    && Entries(Content(d, nums, size)) == es
  }

  lemma DirParts(d: Store, st: seq<Word>, nums: Slots, size: nat, others: multiset<Word>, es: seq<Entry>)
    requires DirIs(d, st, nums, size, others, es)
    ensures Good(d, st, nums, size, others) && size <= MAX_FILE_SIZE && size == 64 * |es| && size % 64 == 0
    ensures |Content(d, nums, size)| == size && Entries(Content(d, nums, size)) == es
  {
    hide Separate, Content, Entries;
  }

  lemma DirFrom(d: Store, st: seq<Word>, nums: Slots, size: nat, others: multiset<Word>, bytes: seq<Byte>,
                es: seq<Entry>)
    requires FileIs(d, st, nums, size, others, bytes) && size == 64 * |es| && |bytes| % 64 == 0 && Entries(bytes) == es
    ensures DirIs(d, st, nums, size, others, es)
  {
    hide Separate, Content, Entries;
  }

  // ---------- where an entry lies ----------

  lemma EntryBounds(bytes: seq<Byte>, es: seq<Entry>, k: nat, i: nat)
    requires |bytes| == 64 * |es| && Entries(bytes) == es && i < 16 && 16 * k + i < |es|
    ensures 64 * i + 64 <= BLOCK_SIZE && k * BLOCK_SIZE + 64 * i + 64 <= |bytes|
    ensures EntryOf(bytes, k * BLOCK_SIZE + 64 * i) == es[16 * k + i]
  {
    assert k * BLOCK_SIZE + 64 * i == 64 * (16 * k + i);
    hide EntryOf;
  }

  lemma EntryInBlock(d: Store, st: seq<Word>, nums: Slots, size: nat, others: multiset<Word>, es: seq<Entry>, k: nat,
                     i: nat)
    requires DirIs(d, st, nums, size, others, es) && i < 16 && 16 * k + i < |es|
    ensures k < MAX_FILE_BLOCKS && 64 * i + 64 <= BLOCK_SIZE
    ensures EntryOf(AllBytes(At(d, LookUp(d, nums, k))), 64 * i) == es[16 * k + i]
  {
    hide *;
    Values();
    DirParts(d, st, nums, size, others, es);
    var bytes := Content(d, nums, size);
    EntryBounds(bytes, es, k, i);
    BlockSlice(d, st, nums, size, others, k, 64 * i, 64);
    SameEntry(AllBytes(At(d, LookUp(d, nums, k))), 64 * i, bytes, k * BLOCK_SIZE + 64 * i);
  }

  // ---------- searching ----------

  lemma BlockHolds(n: nat, k: nat)
    requires 16 * k < n
    ensures k * BLOCK_SIZE < 64 * n && (k * BLOCK_SIZE) / BLOCK_SIZE == k && (k * BLOCK_SIZE) % BLOCK_SIZE == 0
    ensures EntriesInBlock(64 * n, k * BLOCK_SIZE) == Min(16, n - 16 * k)
    ensures !Refused(64 * n, k * BLOCK_SIZE, ReadMode) && (k + 1) * BLOCK_SIZE == k * BLOCK_SIZE + 1024
  {
  }

  lemma LocateBlock(d: Store, nums: Slots, n: nat, name: Name, k: nat)
    requires 16 * k < n && 64 * n <= MAX_FILE_SIZE && k < MAX_FILE_BLOCKS
    ensures 0 + 64 * Min(16, n - 16 * k) <= BLOCK_SIZE
    ensures Locate(d, nums, 64 * n, name, k * BLOCK_SIZE)
            == var s := SpotIn(d, LookUp(d, nums, k), 0, Min(16, n - 16 * k), name);
               if s.Spot? then s else Locate(d, nums, 64 * n, name, (k + 1) * BLOCK_SIZE)
  {
    hide *;
    Values();
    MinIs(16, n - 16 * k);
    BlockHolds(n, k);
    LocateStep(d, nums, 64 * n, name, k * BLOCK_SIZE);
  }

  lemma LocateEnds(d: Store, nums: Slots, n: nat, name: Name, k: nat)
    requires 16 * k >= n && 64 * n <= MAX_FILE_SIZE
    ensures Locate(d, nums, 64 * n, name, k * BLOCK_SIZE) == Absent
  {
  }

  // One block of a search.
  lemma SpotIsFirst(d: Store, st: seq<Word>, nums: Slots, size: nat, others: multiset<Word>, es: seq<Entry>, name: Name,
                    k: nat)
    requires DirIs(d, st, nums, size, others, es) && |name| < FILENAME_SIZE && 16 * k < |es|
    ensures k < MAX_FILE_BLOCKS && 0 + 64 * Min(16, |es| - 16 * k) <= BLOCK_SIZE
    ensures var f := First(es, 16 * k, name);
            SpotIn(d, LookUp(d, nums, k), 0, Min(16, |es| - 16 * k), name)
            == if f < 16 * k + Min(16, |es| - 16 * k) then Spot(LookUp(d, nums, k), 64 * (f - 16 * k)) else Absent
  {
    EntryInBlock(d, st, nums, size, others, es, k, 0);
    hide DirIs, LookUp, StrEq, EntryOf, NameOf, At, First, Scan;
    var bytes, n := AllBytes(At(d, LookUp(d, nums, k))), Min(16, |es| - 16 * k);
    forall i | 0 <= i < n
      ensures StrEq(bytes, 64 * i, name) <==> NameOf(es[16 * k + i]) == name
    {
      EntryInBlock(d, st, nums, size, others, es, k, i);
      StrEqIsName(bytes, 64 * i, name);
    }
    var i, f := Scan(bytes, 0, 0, n, name), First(es, 16 * k, name);
    if i < n {
      assert StrEq(bytes, 64 * i, name);
    }
    if f < 16 * k + n {
      assert StrEq(bytes, 64 * (f - 16 * k), name);
      assert !(i > f - 16 * k);
    }
    assert !(i < n && f > 16 * k + i);
  }

  // A search stops at the first entry with the name, and nowhere if no entry carries it.
  lemma {:induction false} LocateIsFirst(d: Store, st: seq<Word>, nums: Slots, size: nat, others: multiset<Word>,
                                         es: seq<Entry>,
                                         name: Name, k: nat)
    requires DirIs(d, st, nums, size, others, es) && |name| < FILENAME_SIZE && size <= MAX_FILE_SIZE
    ensures var f := First(es, Min(16 * k, |es|), name);
      && (f == |es| ==> Locate(d, nums, size, name, k * BLOCK_SIZE) == Absent)
      && (f < |es| ==> f / 16 < MAX_FILE_BLOCKS
                       && Locate(d, nums, size, name, k * BLOCK_SIZE) == Spot(LookUp(d, nums, f / 16), 64 * (f % 16)))
    decreases |es| - 16 * k
  {
    hide *;
    Values();
    DirParts(d, st, nums, size, others, es);
    var n := |es|;
    MinIs(16 * k, n);
    MinIs(16 * (k + 1), n);
    if 16 * k >= n {
      LocateEnds(d, nums, n, name, k);
      FirstIsEnd(es, name);
    } else {
      MinIs(16, n - 16 * k);
      SpotIsFirst(d, st, nums, size, others, es, name, k);
      LocateBlock(d, nums, n, name, k);
      LocateIsFirst(d, st, nums, size, others, es, name, k + 1);
      InBlock(k, First(es, 16 * k, name));
      FirstSkips(es, 16 * k, Min(16 * (k + 1), n), name);
    }
  }

  lemma InBlock(k: nat, f: nat)
    ensures 16 * k <= f < 16 * k + 16 ==> f / 16 == k && f % 16 == f - 16 * k
  {
  }

  lemma FirstIsEnd(es: seq<Entry>, name: Name)
    ensures First(es, |es|, name) == |es|
  {
  }

  lemma {:induction false} FirstSkips(es: seq<Entry>, i: nat, j: nat, name: Name)
    requires i <= j <= |es|
    ensures First(es, i, name) >= j ==> First(es, j, name) == First(es, i, name)
    ensures First(es, i, name) < j ==> First(es, i, name) < |es|
  {
    hide First, NameOf;
    var f, g := First(es, i, name), First(es, j, name);
    if f >= j {
      assert !(g < f);
      assert !(f < g);
    }
  }

  // Search finds a name if and only if the directory binds it, and then returns the bound
  // inode number.
  lemma SearchFinds(d: Store, st: seq<Word>, nums: Slots, size: nat, others: multiset<Word>, es: seq<Entry>, name: Name)
    requires DirIs(d, st, nums, size, others, es) && |name| < FILENAME_SIZE && UniqueNames(es)
    ensures size <= MAX_FILE_SIZE
    ensures var spot := Locate(d, nums, size, name, 0);
      && (name in Bindings(es) <==> spot.Spot?)
      && (spot.Spot? ==> EntryOf(AllBytes(At(d, spot.block)), spot.off).number == Bindings(es)[name])
  {
    hide *;
    Values();
    DirParts(d, st, nums, size, others, es);
    LocateIsFirst(d, st, nums, size, others, es, name, 0);
    MinIs(0, |es|);
    SearchIsLookUp(es, name);
    var f := First(es, 0, name);
    if f < |es| {
      EntryInBlock(d, st, nums, size, others, es, f / 16, f % 16);
    }
  }

  // ---------- overwriting an entry ----------

  lemma EntryByte(d: Store, st: seq<Word>, nums: Slots, n: nat, others: multiset<Word>, bytes: seq<Byte>, k: nat,
                  off: nat,
                  data: seq<Byte>, p: nat)
    requires k < n <= MAX_FILE_BLOCKS && Separate(d, st, nums, n, others) && off + |data| <= BLOCK_SIZE
    requires p < |bytes| <= n * BLOCK_SIZE && |bytes| <= MAX_FILE_SIZE && Content(d, nums, |bytes|) == bytes
    requires k * BLOCK_SIZE + off + |data| <= |bytes|
    ensures var d' := Overwritten(d, BlockAt(d, nums, k), off, data);
      var at := k * BLOCK_SIZE + off;
      ContentAt(d', nums, p) == (bytes[..at] + data + bytes[at + |data|..])[p]
  {
    hide Separate, BlockAt, Overwritten, ContentAt;
    ChunkContent(d, st, nums, n, others, k, off, data, p);
    assert Content(d, nums, |bytes|)[p] == ContentAt(d, nums, p);
  }

  lemma BytesSet(d: Store, st: seq<Word>, nums: Slots, n: nat, others: multiset<Word>, bytes: seq<Byte>, k: nat,
                 off: nat,
                 data: seq<Byte>)
    requires k < n <= MAX_FILE_BLOCKS && Separate(d, st, nums, n, others) && off + |data| <= BLOCK_SIZE
    requires |bytes| <= n * BLOCK_SIZE && |bytes| <= MAX_FILE_SIZE && Content(d, nums, |bytes|) == bytes
    requires k * BLOCK_SIZE + off + |data| <= |bytes|
    ensures var d' := Overwritten(d, BlockAt(d, nums, k), off, data);
      var at := k * BLOCK_SIZE + off;
      Content(d', nums, |bytes|) == bytes[..at] + data + bytes[at + |data|..]
  {
    hide Separate, BlockAt, Overwritten, ContentAt, Content;
    var d' := Overwritten(d, BlockAt(d, nums, k), off, data);
    var at := k * BLOCK_SIZE + off;
    var changed := bytes[..at] + data + bytes[at + |data|..];
    forall p | 0 <= p < |changed|
      ensures ContentAt(d', nums, p) == changed[p]
    {
      EntryByte(d, st, nums, n, others, bytes, k, off, data, p);
    }
    ContentIs(d', nums, changed);
  }

  lemma Covered(size: nat)
    requires size <= MAX_FILE_SIZE
    ensures size <= BlockCount(size) * BLOCK_SIZE && BlockCount(size) <= MAX_FILE_BLOCKS
  {
  }

  lemma FilesBlock(size: nat, k: nat, i: nat)
    requires k * BLOCK_SIZE + 64 * i + 64 <= size
    ensures k < BlockCount(size)
  {
  }

  lemma HeadKept(d: Store, b: Word, off: nat, data: seq<Byte>)
    requires FIRST_DATA_BLOCK <= b && off + |data| <= BLOCK_SIZE
    ensures CanFree(d) ==> CanFree(Overwritten(d, b, off, data))
  {
  }

  // Writing an entry over entry 16 * k + i changes that entry and nothing else.
  lemma WriteEntry(d: Store, st: seq<Word>, nums: Slots, size: nat, others: multiset<Word>, es: seq<Entry>, k: nat,
                   i: nat, e: Entry)
    requires DirIs(d, st, nums, size, others, es) && i < 16 && 16 * k + i < |es|
    ensures k < MAX_FILE_BLOCKS && 64 * i + 64 <= BLOCK_SIZE
    ensures var d' := Overwritten(d, LookUp(d, nums, k), 64 * i, EntryBytes(e));
      && DirIs(d', st, nums, size, others, es[16 * k + i := e])
      && SameOn(d, d', others) && (CanFree(d) ==> CanFree(d'))
  {
    hide *;
    Values();
    EntryInBlock(d, st, nums, size, others, es, k, i);
    DirParts(d, st, nums, size, others, es);
    GoodIs(d, st, nums, size, others);
    var n, bytes := BlockCount(size), Content(d, nums, size);
    EntryBounds(bytes, es, k, i);
    Covered(size);
    FilesBlock(size, k, i);
    FoundBlock(d, st, nums, n, others, k);
    ChunkGood(d, st, nums, n, others, k, 64 * i, EntryBytes(e));
    BytesSet(d, st, nums, n, others, bytes, k, 64 * i, EntryBytes(e));
    var d' := Overwritten(d, BlockAt(d, nums, k), 64 * i, EntryBytes(e));
    DataBlockApart(d, st, nums, n, others, k);
    HeadKept(d, BlockAt(d, nums, k), 64 * i, EntryBytes(e));
    GoodFrom(d', st, nums, size, others);
    EntriesSet(bytes, 16 * k + i, e);
    assert |Content(d', nums, size)| == size;
    FileIsFrom(d', st, nums, size, others, Content(d', nums, size));
    DirFrom(d', st, nums, size, others, Content(d', nums, size), es[16 * k + i := e]);
  }

  // ---------- unlink ----------

  lemma LastIs(d: Store, st: seq<Word>, nums: Slots, size: nat, others: multiset<Word>, es: seq<Entry>)
    requires DirIs(d, st, nums, size, others, es) && es != []
    ensures 64 <= size <= MAX_FILE_SIZE && size % 64 == 0
    ensures LastOf(d, nums, size) == es[|es| - 1]
  {
    hide DirIs, LookUp, At, EntryOf, AllBytes;
    var k, i := LastPlace(|es|);
    DirParts(d, st, nums, size, others, es);
    EntryInBlock(d, st, nums, size, others, es, k, i);
  }

  lemma LastPlace(n: nat) returns (k: nat, i: nat)
    requires n > 0
    ensures i < 16 && 16 * k + i == n - 1
    ensures (64 * n - 64) / BLOCK_SIZE == k && (64 * n - 64) % BLOCK_SIZE == 64 * i
  {
    k, i := (n - 1) / 16, (n - 1) % 16;
    assert 64 * n - 64 == 1024 * k + 64 * i;
  }

  function Swapped(size: nat, es: seq<Entry>, f: nat): seq<Entry>
    requires f < |es|
  {
    if MarkerStays(size, es[|es| - 1]) then es else es[f := es[|es| - 1]]
  }

  // The entry found becomes a copy of the last one, unless the marker stays.
  lemma SwapSets(d: Store, st: seq<Word>, nums: Slots, size: nat, others: multiset<Word>, es: seq<Entry>, f: nat)
    requires DirIs(d, st, nums, size, others, es) && f < |es|
    ensures 64 <= size <= MAX_FILE_SIZE && size % 64 == 0 && f / 16 < MAX_FILE_BLOCKS
    ensures 64 * (f % 16) + 64 <= BLOCK_SIZE
    ensures var d' := SwapOut(d, nums, size, Spot(LookUp(d, nums, f / 16), 64 * (f % 16)));
      && DirIs(d', st, nums, size, others, Swapped(size, es, f))
      && SameOn(d, d', others) && (CanFree(d) ==> CanFree(d'))
  {
    hide DirIs, LookUp, At, EntryOf, EntryBytes, Overwritten, LastOf, MarkerStays, SameOn, CanFree;
    LastIs(d, st, nums, size, others, es);
    SameOnSelf(d, others);
    assert 16 * (f / 16) + f % 16 == f;
    WriteEntry(d, st, nums, size, others, es, f / 16, f % 16, es[|es| - 1]);
  }

  // Dropping the last 64 bytes drops the last entry.
  lemma DropEntry(d: Store, st: seq<Word>, nums: Slots, size: nat, others: multiset<Word>, es: seq<Entry>)
    returns (st': seq<Word>)
    requires DirIs(d, st, nums, size, others, es) && es != [] && CanFree(d)
    ensures 64 <= size
    ensures var (d', size') := ShrinkLoop(d, nums, size, 64);
      && size' == size - 64
      && CanFree(d')
      && DirIs(d', st', nums, size', others, es[..|es| - 1])
      && SameOn(d, d', others)
      && |st'| == |st| + Need(size', size)
  {
    hide *;
    Values();
    DirParts(d, st, nums, size, others, es);
    EntryShrinkSafe(size);
    st' := ShrinkKeepsPrefix(d, st, nums, size, 64, others);
    var bytes := Content(d, nums, size);
    EntriesPrefix(bytes, |es| - 1);
    var (d', size') := ShrinkLoop(d, nums, size, 64);
    DirFrom(d', st', nums, size', others, bytes[..size'], es[..|es| - 1]);
  }

  // The marker stays in a directory of at most two entries whose last one names inode 65535.
  lemma MarkerAt(es: seq<Entry>)
    requires es != []
    ensures MarkerStays(64 * |es|, es[|es| - 1]) <==> |es| <= 2 && es[|es| - 1].number == 65535
  {
  }

  // unlink removes exactly the binding of the name it finds, and frees the blocks the shorter
  // directory no longer needs, if and only if the entry moved or was the last one anyway.
  lemma UnlinkRemoves(d: Store, st: seq<Word>, nums: Slots, size: nat, others: multiset<Word>, es: seq<Entry>,
                      name: Name)
    returns (st': seq<Word>, es': seq<Entry>)
    requires DirIs(d, st, nums, size, others, es) && UniqueNames(es) && CanFree(d)
    requires |name| < FILENAME_SIZE && name in Bindings(es)
    ensures 64 <= size && size % 64 == 0 && First(es, 0, name) < |es|
    ensures var spot := Locate(d, nums, size, name, 0);
      var d1 := SwapOut(d, nums, size, spot);
      var (d', size') := ShrinkLoop(d1, nums, size, 64);
      && DirIs(d', st', nums, size', others, es')
      && CanFree(d') && SameOn(d1, d', others) && SameOn(d, d1, others)
      && size' == size - 64 && |st'| == |st| + Need(size', size)
    ensures Bindings(es') == Bindings(es) - {name}
            <==> |es| > 2 || es[|es| - 1].number != 65535 || First(es, 0, name) == |es| - 1
    ensures |es| > 2 || es[|es| - 1].number != 65535 ==> UniqueNames(es')
  {
    hide *;
    Values();
    DirParts(d, st, nums, size, others, es);
    SearchIsLookUp(es, name);
    MinIs(0, |es|);
    LocateIsFirst(d, st, nums, size, others, es, name, 0);
    var f := First(es, 0, name);
    SwappedBindings(size, es, f);
    MarkerAt(es);
    SwapSets(d, st, nums, size, others, es, f);
    var d1 := SwapOut(d, nums, size, Locate(d, nums, size, name, 0));
    st' := DropEntry(d1, st, nums, size, others, Swapped(size, es, f));
    es' := Swapped(size, es, f)[..|es| - 1];
  }

  lemma SwappedBindings(size: nat, es: seq<Entry>, f: nat)
    requires UniqueNames(es) && f < |es|
    ensures |Swapped(size, es, f)| == |es|
    ensures var es' := Swapped(size, es, f)[..|es| - 1];
      && (Bindings(es') == Bindings(es) - {NameOf(es[f])} <==> !MarkerStays(size, es[|es| - 1]) || f == |es| - 1)
      && (!MarkerStays(size, es[|es| - 1]) ==> UniqueNames(es'))
  {
    SwapUnbinds(es, f);
    NoSwapUnbinds(es, f);
    hide UniqueNames, Bindings, NameOf, MarkerStays;
  }

  // ---------- create ----------

  lemma WroteParts(d: Store, r: Written, st': seq<Word>, size: nat, others: multiset<Word>, bytes: seq<Byte>, len: nat)
    requires WroteAll(d, r, st', size, others, bytes, len)
    ensures r.size == size && FileIs(r.disk, st', r.nums, size, others, bytes) && SameOn(d, r.disk, others)
  {
    hide FileIs, SameOn;
  }

  // An added entry binds its name, with the blocks it needs taken from the free list.
  lemma CreateAdds(d: Store, st: seq<Word>, nums: Slots, size: nat, others: multiset<Word>, es: seq<Entry>, e: Entry,
                   need: nat)
    requires DirIs(d, st, nums, size, others, es) && size + 64 <= MAX_FILE_SIZE
    requires need == Need(size, size + 64) && need <= |st|
    ensures size <= MAX_FILE_SIZE
    ensures var w := WriteLoop(d, nums, size, size, EntryBytes(e), 0);
      && w.size == size + 64
      && DirIs(w.disk, st[need..], w.nums, size + 64, others, es + [e])
      && SameOn(d, w.disk, others)
    ensures UniqueNames(es) && NameOf(e) !in Bindings(es) ==>
              UniqueNames(es + [e]) && Bindings(es + [e]) == Bindings(es)[NameOf(e) := e.number]
  {
    hide *;
    Values();
    DirParts(d, st, nums, size, others, es);
    var k, off := PlaceInFile(size);
    var bytes := Content(d, nums, size);
    AppendWrites(d, st, nums, k, off, others, EntryBytes(e), 0, need);
    var w := WriteLoop(d, nums, size, size, EntryBytes(e), 0);
    assert EntryBytes(e)[0..] == EntryBytes(e);
    WroteParts(d, w, st[need..], size + 64, others, bytes + EntryBytes(e), 64);
    EntriesAppend(bytes, e);
    DirFrom(w.disk, st[need..], w.nums, size + 64, others, bytes + EntryBytes(e), es + [e]);
    if UniqueNames(es) && NameOf(e) !in Bindings(es) {
      AppendBinds(es, e);
    }
  }

  lemma NewDirBlock(d: Store, nums: Slots)
    ensures var (d1, nums1, b, off) := MapForWrite(d, nums, 0, 0); off == 0 && nums1[0] == b
    ensures forall d': Store, nums': Slots :: MapForWrite(d', nums', 64, 64) == (d', nums', nums'[0], 64)
  {
  }

  // The two entries bind `.` to the directory and `..` to its parent, and nothing else.
  lemma NewDirBinds(n: Number, p: Number, behindDot: seq<Byte>, behindDots: seq<Byte>)
    requires |behindDot| == 60 && |behindDots| == 59
    ensures var es := [Entry([46, 0] + behindDot, n), Entry([46, 46, 0] + behindDots, p)];
            UniqueNames(es) && Bindings(es) == map[[46] := n, [46, 46] := p]
  {
    var a, b := Entry([46, 0] + behindDot, n), Entry([46, 46, 0] + behindDots, p);
    CStringIs(a.field, [46]);
    CStringIs(b.field, [46, 46]);
    hide NameOf;
    assert [a, b][..1] == [a] && [a][..0] == [];
    assert Bindings([a]) == map[[46] := n];
  }

  // A new directory holds exactly its two entries.
  lemma NewDirHolds(d: Store, st: seq<Word>, nums: Slots, others: multiset<Word>, a: Entry, b: Entry)
    requires DirIs(d, st, nums, 0, others, []) && st != []
    ensures var (d1, nums1, x, off) := MapForWrite(d, nums, 0, 0);
      && off + 128 <= BLOCK_SIZE
      && var d' := Overwritten(Overwritten(d1, x, off, EntryBytes(a)), x, off + 64, EntryBytes(b));
         DirIs(d', st[1..], nums1, 128, others, [a, b]) && SameOn(d, d', others)
  {
    hide *;
    Values();
    NewDirBlock(d, nums);
    NeedNewDir();
    var (d1, nums1, x, off) := MapForWrite(d, nums, 0, 0);
    EntryFits(d, nums, 0, EntryBytes(a));
    CreateAdds(d, st, nums, 0, others, [], a, 1);
    var d2 := Overwritten(d1, x, off, EntryBytes(a));
    assert [] + [a] == [a];
    EntryFits(d2, nums1, 64, EntryBytes(b));
    CreateAdds(d2, st[1..], nums1, 64, others, [a], b, 0);
    assert st[1..][0..] == st[1..] && [a] + [b] == [a, b];
    SameOnTwice(d, d2, Overwritten(d2, x, 64, EntryBytes(b)), others);
  }

  lemma NeedNewDir()
    ensures Need(0, 64) == 1 && Need(64, 128) == 0
  {
  }

  // ---------- listing ----------

  lemma CollectBlock(d: Store, nums: Slots, n: nat, k: nat)
    requires 16 * k < n && 64 * n <= MAX_FILE_SIZE && k < MAX_FILE_BLOCKS
    ensures 0 + 64 * Min(16, n - 16 * k) <= BLOCK_SIZE
    ensures var es := BlockEntries(AllBytes(At(d, LookUp(d, nums, k))), 0, Min(16, n - 16 * k));
      Gathered(d, nums, 64 * n, k * BLOCK_SIZE, 16, []) == es
  {
    hide *;
    Values();
    MinIs(16, n - 16 * k);
    BlockHolds(n, k);
    GatheredStep(d, nums, 64 * n, k * BLOCK_SIZE, 16, []);
    var es := BlockEntries(AllBytes(At(d, LookUp(d, nums, k))), 0, Min(16, n - 16 * k));
    assert [] + es == es;
    GatheredEnds(d, nums, n, k, es);
  }

  // After one block the collection has 16 entries or is at the end of the directory.
  lemma GatheredEnds(d: Store, nums: Slots, n: nat, k: nat, es: seq<Entry>)
    requires 16 * k < n && 64 * n <= MAX_FILE_SIZE && |es| == Min(16, n - 16 * k)
    ensures Gathered(d, nums, 64 * n, k * BLOCK_SIZE + 1024, 16, es) == es
  {
  }

  lemma BlockEntriesAre(bytes: seq<Byte>, es: seq<Entry>)
    requires 64 * |es| <= |bytes| && forall i :: 0 <= i < |es| ==> EntryOf(bytes, 64 * i) == es[i]
    ensures BlockEntries(bytes, 0, |es|) == es
  {
    hide EntryOf;
  }

  lemma BlockIsSlice(d: Store, st: seq<Word>, nums: Slots, size: nat, others: multiset<Word>, es: seq<Entry>, k: nat)
    requires DirIs(d, st, nums, size, others, es) && 16 * k < |es|
    ensures k < MAX_FILE_BLOCKS && 0 + 64 * Min(16, |es| - 16 * k) <= BLOCK_SIZE
    ensures BlockEntries(AllBytes(At(d, LookUp(d, nums, k))), 0, Min(16, |es| - 16 * k))
            == es[16 * k..16 * k + Min(16, |es| - 16 * k)]
  {
    hide DirIs, LookUp, EntryOf, At, AllBytes, BlockEntries, Min;
    EntryInBlock(d, st, nums, size, others, es, k, 0);
    MinIs(16, |es| - 16 * k);
    var n := Min(16, |es| - 16 * k);
    var bytes, part := AllBytes(At(d, LookUp(d, nums, k))), es[16 * k..16 * k + n];
    forall i | 0 <= i < n
      ensures EntryOf(bytes, 64 * i) == part[i]
    {
      EntryInBlock(d, st, nums, size, others, es, k, i);
    }
    BlockEntriesAre(bytes, part);
  }

  lemma ListedStep(d: Store, nums: Slots, n: nat, k: nat, es: seq<Entry>)
    requires 16 * k < n && 64 * n <= MAX_FILE_SIZE && |es| == Min(16, n - 16 * k)
    requires Gathered(d, nums, 64 * n, k * BLOCK_SIZE, 16, []) == es
    ensures Listed(d, nums, 64 * n, 16 * k)
            == NamesOf(es) + if 16 * k + 16 < n then Listed(d, nums, 64 * n, 16 * (k + 1)) else []
  {
    hide Gathered, NamesOf, Min;
    ListedPlace(n, k);
    CollectsSome(d, nums, 64 * n, 16 * k);
    MinIs(16, n - 16 * k);
  }

  lemma ListedPlace(n: nat, k: nat)
    ensures 16 * k * DIRECTORY_ENTRY_SIZE == k * BLOCK_SIZE && 64 * n / DIRECTORY_ENTRY_SIZE == n
  {
  }

  // Where a collection of `more` entries from block k on stops: at the end of a block.
  function CollectEnd(n: nat, k: nat, more: int): (e: nat)
    ensures 16 * k <= n ==> 16 * k <= e <= n
  {
    var e := if more <= 0 then 16 * k else 16 * k + (more + 15) / 16 * 16;
    if e <= n then e else n
  }

  lemma CollectEndStep(n: nat, k: nat, more: int)
    requires 16 * k < n && more > 0
    ensures 16 * k + Min(16, n - 16 * k) <= n
    ensures 16 * k + 16 <= n ==> CollectEnd(n, k, more) == CollectEnd(n, k + 1, more - 16)
    ensures 16 * k + 16 > n ==> CollectEnd(n, k, more) == n
  {
  }

  lemma CollectEndNow(n: nat, k: nat, more: int)
    requires 16 * k <= n && (more <= 0 || 16 * k == n)
    ensures CollectEnd(n, k, more) == 16 * k
  {
  }

  lemma CollectStep(d: Store, nums: Slots, n: nat, k: nat, num: nat, got: seq<Entry>)
    requires 64 * n <= MAX_FILE_SIZE
    ensures |got| >= num || 16 * k >= n ==> Gathered(d, nums, 64 * n, k * BLOCK_SIZE, num, got) == got
    ensures |got| < num && 16 * k < n ==>
              && k < MAX_FILE_BLOCKS && 0 + 64 * Min(16, n - 16 * k) <= BLOCK_SIZE
              && Gathered(d, nums, 64 * n, k * BLOCK_SIZE, num, got)
                 == Gathered(d, nums, 64 * n, (k + 1) * BLOCK_SIZE, num,
                             got + BlockEntries(AllBytes(At(d, LookUp(d, nums, k))), 0, Min(16, n - 16 * k)))
  {
    GatheredStep(d, nums, 64 * n, k * BLOCK_SIZE, num, got);
    if 16 * k < n {
      BlockHolds(n, k);
    }
    hide Gathered, LookUp, BlockEntries, AllBytes, At;
  }

  // The collecting mode from the start of block k on: the entries from there to the end of the
  // block in which the limit is reached, or to the end of the directory.
  lemma {:induction false} CollectsTo(d: Store, st: seq<Word>, nums: Slots, size: nat, others: multiset<Word>,
                                      es: seq<Entry>, k: nat, num: nat, got: seq<Entry>)
    requires DirIs(d, st, nums, size, others, es) && 16 * k <= |es| && size <= MAX_FILE_SIZE
    ensures Gathered(d, nums, size, k * BLOCK_SIZE, num, got) == got + es[16 * k..CollectEnd(|es|, k, num - |got|)]
    decreases |es| - 16 * k
  {
    hide *;
    Values();
    DirParts(d, st, nums, size, others, es);
    var n := |es|;
    CollectStep(d, nums, n, k, num, got);
    if |got| >= num || 16 * k == n {
      CollectEndNow(n, k, num - |got|);
      assert es[16 * k..16 * k] == [];
    } else {
      CollectEndStep(n, k, num - |got|);
      BlockIsSlice(d, st, nums, size, others, es, k);
      MinIs(16, n - 16 * k);
      var part := es[16 * k..16 * k + Min(16, n - 16 * k)];
      if 16 * k + 16 <= n {
        CollectsTo(d, st, nums, size, others, es, k + 1, num, got + part);
        JoinPart(got, es, 16 * k, 16 * k + 16, CollectEnd(n, k, num - |got|));
      } else {
        CollectStep(d, nums, n, k + 1, num, got + part);
      }
    }
  }

  lemma JoinPart(got: seq<Entry>, es: seq<Entry>, a: nat, b: nat, c: nat)
    requires a <= b <= c <= |es|
    ensures got + es[a..b] + es[b..c] == got + es[a..c]
  {
  }

  // A listing names every entry once, in storage order.
  lemma {:induction false} ListsFrom(d: Store, st: seq<Word>, nums: Slots, size: nat, others: multiset<Word>,
                                     es: seq<Entry>, k: nat)
    requires DirIs(d, st, nums, size, others, es) && 16 * k <= |es| && size <= MAX_FILE_SIZE
    ensures Listed(d, nums, size, 16 * k) == NamesOf(es[16 * k..])
    decreases |es| - 16 * k
  {
    hide *;
    Values();
    DirParts(d, st, nums, size, others, es);
    var n := |es|;
    if 16 * k == n {
      ListedNone(d, nums, n);
    } else {
      MinIs(16, n - 16 * k);
      var m := Min(16, n - 16 * k);
      BlockIsSlice(d, st, nums, size, others, es, k);
      CollectBlock(d, nums, n, k);
      ListedStep(d, nums, n, k, es[16 * k..16 * k + m]);
      NamesSplit(es[16 * k..], m);
      assert es[16 * k..][..m] == es[16 * k..16 * k + m] && es[16 * k..][m..] == es[16 * k + m..];
      if 16 * k + 16 < n {
        ListsFrom(d, st, nums, size, others, es, k + 1);
      } else {
        ListedNone(d, nums, n);
      }
    }
  }

  lemma ListedNone(d: Store, nums: Slots, n: nat)
    requires 64 * n <= MAX_FILE_SIZE
    ensures Listed(d, nums, 64 * n, n) == [] == NamesOf([])
  {
  }

  lemma NamesSplit(es: seq<Entry>, m: nat)
    requires m <= |es|
    ensures NamesOf(es) == NamesOf(es[..m]) + NamesOf(es[m..])
  {
    hide NameOf;
  }

  lemma ListsAll(d: Store, st: seq<Word>, nums: Slots, size: nat, others: multiset<Word>, es: seq<Entry>)
    requires DirIs(d, st, nums, size, others, es)
    ensures size <= MAX_FILE_SIZE && Listed(d, nums, size, 0) == NamesOf(es)
  {
    hide *;
    Values();
    DirParts(d, st, nums, size, others, es);
    ListsFrom(d, st, nums, size, others, es, 0);
    assert es[0..] == es;
  }
}
