/** What searching, adding and removing entries does to a directory as a value (code/fs/dir.c). */
module FsDirOps {
  import opened Common
  import opened FsDir

  // ---------- one block of a directory written ----------

  /** Block `i` of a directory set to `b`; from 12 on it is named in the table, which is made if there is none. */
  function Put(d: State, i: nat, b: Blk): State
    requires Shaped(d) && i < DIRECT + ENTRIES
  {
    if i < DIRECT then d.(direct := d.direct[i := b])
    else d.(table := Some((if d.table.Some? then d.table.value else NoBlocks(ENTRIES))[i - DIRECT := b]))
  }

  lemma {:induction false} PutAll(d: State, i: nat, b: Blk)
    requires Shaped(d) && i < DIRECT + ENTRIES && (|b| == 0 || |b| == PER_BLOCK)
    ensures Shaped(Put(d, i, b)) && All(Put(d, i, b)) == All(d)[i := b]
  {
  }

  lemma {:induction false} PutTight(d: State, i: nat, b: Blk)
    requires Shaped(d) && Tight(d) && i < DIRECT + ENTRIES && |b| == PER_BLOCK && LiveIn(b) != []
    ensures Tight(Put(d, i, b))
  {
    if i >= DIRECT {
      var t := if d.table.Some? then d.table.value else NoBlocks(ENTRIES);
      AllocatedWrite(t, i - DIRECT, b);
    }
  }

  /** A block with the entry in its first slot and nothing else. */
  function Fresh(e: Entry): (b: Blk)
    ensures |b| == PER_BLOCK && LiveIn(b) == [e] && b[0] == Full(e)
  {
    LiveInAround(Blank(PER_BLOCK)[0 := Full(e)], 0);
    BlankLive(Blank(PER_BLOCK)[0 := Full(e)][1..]);
    Blank(PER_BLOCK)[0 := Full(e)]
  }

  /** The entry goes into an empty slot of an allocated block. */
  lemma {:induction false} SlotFilled(d: State, i: nat, k: nat, e: Entry)
    requires Ok(d) && i < DIRECT + ENTRIES && k < |All(d)[i]| && All(d)[i][k] == Empty
    ensures var d' := Put(d, i, All(d)[i][k := Full(e)]).(size := d.size + ENTRY_SIZE);
      Ok(d') && Inserted(Live(All(d)), Live(All(d')), e)
  {
    var all, b := All(d), All(d)[i][k := Full(e)];
    var d' := Put(d, i, b).(size := d.size + ENTRY_SIZE);
    PutAll(d, i, b);
    assert All(d') == all[i := b];
    LiveAt(all, i, k);
    LiveWrite(all, i, k, Full(e));
    InsertedAt(BeforeSlot(all, i, k), AfterSlot(all, i, k), e);
    LiveInAround(b, k);
    PutTight(d, i, b);
  }

  /** An allocated block beyond the direct ones is in the table. */
  lemma {:induction false} TableThere(d: State, i: nat)
    requires Shaped(d) && i < DIRECT + ENTRIES && All(d)[i] != []
    ensures i >= DIRECT ==> d.table.Some?
  {
  }

  lemma {:induction false} InsertedAt(a: seq<Entry>, c: seq<Entry>, e: Entry)
    ensures Inserted(a + [] + c, a + [e] + c, e)
  {
    var l := a + [] + c;
    assert l[..|a|] == a && l[|a|..] == c;
  }

  /** The entry goes into a new block. */
  lemma {:induction false} BlockAdded(d: State, i: nat, e: Entry)
    requires Ok(d) && 0 < i < DIRECT + ENTRIES && All(d)[i] == []
    ensures var d' := Put(d, i, Fresh(e)).(size := d.size + ENTRY_SIZE);
      Ok(d') && Inserted(Live(All(d)), Live(All(d')), e)
  {
    var all, b := All(d), Fresh(e);
    var d' := Put(d, i, b).(size := d.size + ENTRY_SIZE);
    PutAll(d, i, b);
    LiveAround(all, i);
    LiveAround(all[i := b], i);
    assert all[i := b][..i] == all[..i] && all[i := b][i + 1..] == all[i + 1..];
    InsertedAt(Live(all[..i]), Live(all[i + 1..]), e);
    PutTight(d, i, b);
  }

  /** The first slot with room is slot `k` of block `i`; in a block that is not allocated it is slot 0. */
  ghost predicate FirstRoom(all: seq<Blk>, i: nat, k: nat) {
    && i < |all| && (forall j :: 0 <= j < i ==> Crowded(all[j]))
    && if all[i] == [] then k == 0 else k < |all[i]| && all[i][k] == Empty && forall j :: 0 <= j < k ==> all[i][j].Full?
  }

  /** The entry has come into the first slot with room, and no other slot has changed. */
  ghost predicate AtFirstRoom(all: seq<Blk>, all': seq<Blk>, e: Entry) {
    exists i: nat, k: nat ::
      FirstRoom(all, i, k) && all' == all[i := (if all[i] == [] then Blank(PER_BLOCK) else all[i])[k := Full(e)]]
  }

  // ---------- an entry taken out ----------

  lemma {:induction false} SlotGone(d: State, i: nat, k: nat)
    requires Ok(d) && i < DIRECT + ENTRIES && k < |All(d)[i]| && All(d)[i][k].Full?
    ensures d.size >= ENTRY_SIZE
    ensures var d' := Put(d, i, All(d)[i][k := Empty]);
      && Live(All(d')) == BeforeSlot(All(d), i, k) + AfterSlot(All(d), i, k) && Shaped(d')
      && d.size - ENTRY_SIZE == ENTRY_SIZE * |Live(All(d'))|
  {
    var all, b := All(d), All(d)[i][k := Empty];
    PutAll(d, i, b);
    LiveAt(all, i, k);
    LiveWrite(all, i, k, Empty);
  }

  /**
   The directory without the entry in slot `k` of block `i`: it is in order unless that was one of the first two or the
   last of its block.
   */
  lemma {:induction false} SlotCleared(d: State, i: nat, k: nat)
    requires Ok(d) && i < DIRECT + ENTRIES && k < |All(d)[i]| && All(d)[i][k].Full?
    ensures d.size >= ENTRY_SIZE
    ensures var d' := Put(d, i, All(d)[i][k := Empty]).(size := d.size - ENTRY_SIZE);
      && Live(All(d')) == BeforeSlot(All(d), i, k) + AfterSlot(All(d), i, k)
      && (Ok(d') <==> (i == 0 ==> k >= 2) && LiveIn(All(d)[i][k := Empty]) != [])
  {
    SlotGone(d, i, k);
    ClearedTight(d, i, All(d)[i][k := Empty]);
    ClearedRooted(d, i, k);
  }

  lemma {:induction false} ClearedTight(d: State, i: nat, b: Blk)
    requires Shaped(d) && Tight(d) && i < DIRECT + ENTRIES && |b| == PER_BLOCK
    ensures Tight(Put(d, i, b)) <==> LiveIn(b) != []
  {
    if LiveIn(b) != [] {
      PutTight(d, i, b);
    } else if i < DIRECT {
      assert Put(d, i, b).direct[i] == b;
    } else {
      assert Put(d, i, b).table.value[i - DIRECT] == b;
    }
  }

  lemma {:induction false} ClearedRooted(d: State, i: nat, k: nat)
    requires Shaped(d) && Rooted(d) && i < DIRECT + ENTRIES && k < |All(d)[i]|
    ensures Rooted(Put(d, i, All(d)[i][k := Empty])) <==> (i == 0 ==> k >= 2)
  {
    assert i == 0 ==> All(d)[i] == d.direct[0];
  }

  /** Block `i` given back, and with the last block of the table the table. */
  function Dropped(d: State, i: nat): State
    requires Shaped(d) && i < DIRECT + ENTRIES && (i >= DIRECT ==> d.table.Some?)
  {
    if i < DIRECT || Allocated(d.table.value) > 1 then Put(d, i, []) else d.(table := None)
  }

  lemma {:induction false} LastBlock(t: seq<Blk>, i: nat)
    requires i < |t| && t[i] != [] && Allocated(t) == 1
    ensures t[i := []] == NoBlocks(|t|)
  {
    AllocatedWrite(t, i, []);
    AllocatedSome(t[i := []]);
  }

  lemma {:induction false} DroppedShape(d: State, i: nat)
    requires Shaped(d) && Tight(d) && 0 < i < DIRECT + ENTRIES && All(d)[i] != [] && (i >= DIRECT ==> d.table.Some?)
    ensures Shaped(Dropped(d, i)) && All(Dropped(d, i)) == All(d)[i := []]
  {
    if i < DIRECT || Allocated(d.table.value) > 1 {
      PutAll(d, i, []);
    } else {
      LastBlock(d.table.value, i - DIRECT);
      assert All(d)[i := []] == d.direct + d.table.value[i - DIRECT := []];
    }
  }

  lemma {:induction false} DroppedTight(d: State, i: nat)
    requires Shaped(d) && Tight(d) && 0 < i < DIRECT + ENTRIES && All(d)[i] != [] && (i >= DIRECT ==> d.table.Some?)
    ensures Tight(Dropped(d, i))
  {
    if i >= DIRECT && Allocated(d.table.value) > 1 {
      AllocatedWrite(d.table.value, i - DIRECT, []);
    }
  }

  lemma {:induction false} DroppedAll(d: State, i: nat)
    requires Shaped(d) && Tight(d) && 0 < i < DIRECT + ENTRIES && All(d)[i] != []
    ensures (i >= DIRECT ==> d.table.Some?) && Shaped(Dropped(d, i)) && All(Dropped(d, i)) == All(d)[i := []]
    ensures Tight(Dropped(d, i))
  {
    TableThere(d, i);
    DroppedShape(d, i);
    DroppedTight(d, i);
  }

  /** A directory with the block and perhaps the table gone. */
  lemma {:induction false} DroppedIs(d: State, d': State, i: nat)
    requires Shaped(d) && Tight(d) && 0 < i < DIRECT + ENTRIES && All(d)[i] != []
    requires Shaped(d') && All(d') == All(d)[i := []] && d'.size == d.size
    requires d'.table.None? <==>
      d.table.None? || (i >= DIRECT && forall j :: DIRECT <= j < DIRECT + ENTRIES ==> All(d')[j] == [])
    ensures (i >= DIRECT ==> d.table.Some?) && d' == Dropped(d, i)
  {
    DroppedAll(d, i);
    var x := Dropped(d, i);
    assert All(x) == All(d');
    assert x.direct == All(x)[..DIRECT] && d'.direct == All(d')[..DIRECT];
    if i >= DIRECT {
      AllocatedWrite(d.table.value, i - DIRECT, []);
      AllocatedSome(d.table.value[i - DIRECT := []]);
      assert forall j :: DIRECT <= j < DIRECT + ENTRIES ==> All(d')[j] == d.table.value[i - DIRECT := []][j - DIRECT];
    }
    assert x.table.None? == d'.table.None?;
    assert x.table.Some? ==> x.table.value == All(x)[DIRECT..] && d'.table.value == All(d')[DIRECT..];
  }

  /** The directory without the entry in slot `k` of block `i`, the only one there. */
  lemma {:induction false} BlockFreed(d: State, i: nat, k: nat)
    requires Ok(d) && 0 < i < DIRECT + ENTRIES && k < |All(d)[i]| && All(d)[i][k].Full?
    requires LiveIn(All(d)[i][k := Empty]) == []
    ensures d.size >= ENTRY_SIZE && (i >= DIRECT ==> d.table.Some?)
    ensures var d' := Dropped(d, i).(size := d.size - ENTRY_SIZE);
      Ok(d') && Live(All(d')) == BeforeSlot(All(d), i, k) + AfterSlot(All(d), i, k)
  {
    var all := All(d);
    DroppedAll(d, i);
    LiveAt(all, i, k);
    LiveEmptied(all, i, k);
    assert All(Dropped(d, i).(size := d.size - ENTRY_SIZE)) == all[i := []];
  }

  lemma {:induction false} LiveEmptied(all: seq<Blk>, i: nat, k: nat)
    requires i < |all| && k < |all[i]| && LiveIn(all[i][k := Empty]) == []
    ensures Live(all[i := []]) == BeforeSlot(all, i, k) + AfterSlot(all, i, k)
  {
    LiveWrite(all, i, k, Empty);
    LiveReplaced(all, i, all[i][k := Empty]);
    LiveReplaced(all, i, []);
  }

  // ---------- searches ----------

  /** The first entry with a name. */
  function ByName(l: seq<Entry>, name: Name): Option<Entry> {
    if l == [] then None else if l[0].name == name then Some(l[0]) else ByName(l[1..], name)
  }

  lemma {:induction false} ByNameSplit(a: seq<Entry>, b: seq<Entry>, name: Name)
    ensures ByName(a + b, name) == if ByName(a, name).Some? then ByName(a, name) else ByName(b, name)
  {
    if a == [] {
      assert a + b == b;
    } else {
      assert (a + b)[1..] == a[1..] + b;
      ByNameSplit(a[1..], b, name);
    }
  }

  /** The entries without the first one of an inode. */
  function Without(l: seq<Entry>, ino: nat): seq<Entry> {
    if l == [] then [] else if l[0].ino == ino then l[1..] else [l[0]] + Without(l[1..], ino)
  }

  predicate Has(l: seq<Entry>, ino: nat) { exists i :: 0 <= i < |l| && l[i].ino == ino }

  lemma {:induction false} WithoutAt(a: seq<Entry>, e: Entry, c: seq<Entry>, ino: nat)
    requires !Has(a, ino) && e.ino == ino
    ensures Without(a + [e] + c, ino) == a + c && Has(a + [e] + c, ino)
  {
    assert (a + [e] + c)[|a|] == e;
    NotFirst(a, [e] + c, ino);
    assert a + ([e] + c) == a + [e] + c;
  }

  lemma {:induction false} NotFirst(a: seq<Entry>, r: seq<Entry>, ino: nat)
    requires forall i :: 0 <= i < |a| ==> a[i].ino != ino
    ensures Without(a + r, ino) == a + Without(r, ino)
  {
    if a == [] {
      assert a + r == r;
    } else {
      NotFirst(a[1..], r, ino);
      assert (a + r)[1..] == a[1..] + r;
    }
  }

  lemma {:induction false} HasSplit(a: seq<Entry>, b: seq<Entry>, ino: nat)
    ensures Has(a + b, ino) <==> Has(a, ino) || Has(b, ino)
  {
    if Has(a, ino) {
      var i :| 0 <= i < |a| && a[i].ino == ino;
      assert (a + b)[i].ino == ino;
    }
    if Has(b, ino) {
      var i :| 0 <= i < |b| && b[i].ino == ino;
      assert (a + b)[|a| + i].ino == ino;
    }
  }

  /** The first slot of a block that is empty; its length when there is none. */
  method FirstEmpty(b: Blk) returns (k: nat)
    ensures k <= |b| && (forall j :: 0 <= j < k ==> b[j].Full?) && (k < |b| ==> b[k] == Empty)
  {
    k := 0;
    while k < |b| && b[k].Full?
      invariant k <= |b| && forall j :: 0 <= j < k ==> b[j].Full?
    {
      k := k + 1;
    }
  }

  /** The name in a slot; an empty slot holds zero bytes, which read as the empty name. */
  function NameIn(s: Slot): Name { if s.Full? then s.entry.name else "" }

  /** The first slot with a name. */
  function FirstNamed(l: seq<Slot>, name: Name): Option<Slot> {
    if l == [] then None else if NameIn(l[0]) == name then Some(l[0]) else FirstNamed(l[1..], name)
  }

  /** All slots of the allocated blocks. */
  function Flat(all: seq<Blk>): seq<Slot> { if all == [] then [] else all[0] + Flat(all[1..]) }

  lemma {:induction false} FirstSplit(a: seq<Slot>, b: seq<Slot>, name: Name)
    ensures FirstNamed(a + b, name) == if FirstNamed(a, name).Some? then FirstNamed(a, name) else FirstNamed(b, name)
  {
    if a == [] {
      assert a + b == b;
    } else {
      assert (a + b)[1..] == a[1..] + b;
      FirstSplit(a[1..], b, name);
    }
  }

  lemma {:induction false} FlatLive(all: seq<Blk>)
    ensures LiveIn(Flat(all)) == Live(all)
  {
    if all != [] {
      LiveInSplit(all[0], Flat(all[1..]));
      FlatLive(all[1..]);
    }
  }

  /** A name that is not empty is found where it is an entry's. */
  lemma {:induction false} FirstLive(l: seq<Slot>, name: Name)
    requires name != ""
    ensures FirstNamed(l, name) == match ByName(LiveIn(l), name) case Some(e) => Some(Full(e)) case None => None
  {
    if l != [] {
      FirstLive(l[1..], name);
      ByNameSplit(if l[0].Full? then [l[0].entry] else [], LiveIn(l[1..]), name);
    }
  }

  predicate Blanks(l: seq<Slot>) { exists k :: 0 <= k < |l| && l[k] == Empty }

  /** The empty name is found in the first slot that is empty, though no entry has it. */
  lemma {:induction false} FirstBlank(l: seq<Slot>)
    requires ByName(LiveIn(l), "") == None
    ensures FirstNamed(l, "") == if Blanks(l) then Some(Empty) else None
  {
    if l != [] {
      ByNameSplit(if l[0].Full? then [l[0].entry] else [], LiveIn(l[1..]), "");
      if l[0].Full? {
        assert ByName([l[0].entry], "") == None;
        FirstBlank(l[1..]);
        if k :| 0 <= k < |l| && l[k] == Empty {
          assert l[1..][k - 1] == Empty;
        }
      }
    }
  }

  lemma {:induction false} NotInSlot(b: Blk, k: nat, ino: nat)
    requires k < |b| && !Has(LiveIn(b[..k]), ino) && (b[k].Full? ==> b[k].entry.ino != ino)
    ensures !Has(LiveIn(b[..k + 1]), ino)
  {
    assert b[..k + 1] == b[..k] + [b[k]];
    LiveInSplit(b[..k], [b[k]]);
    HasSplit(LiveIn(b[..k]), LiveIn([b[k]]), ino);
  }

  /** The first entry of a block with an inode number, and whether the directory's own entry was met on the way. */
  method FindIno(b: Blk, ino: nat) returns (k: nat, dot: bool)
    ensures k <= |b| && !Has(LiveIn(b[..k]), ino)
    ensures if k < |b| then b[k].Full? && b[k].entry.ino == ino else !Has(LiveIn(b), ino)
    ensures dot <==> exists j :: 0 <= j <= k && j < |b| && b[j].Full? && b[j].entry.name == "."
  {
    k, dot := 0, false;
    while k < |b|
      invariant k <= |b| && !Has(LiveIn(b[..k]), ino)
      invariant dot <==> exists j :: 0 <= j < k && b[j].Full? && b[j].entry.name == "."
    {
      if b[k].Full? {
        dot := dot || b[k].entry.name == ".";
        if b[k].entry.ino == ino {
          break;
        }
      }
      NotInSlot(b, k, ino);
      k := k + 1;
    }
    assert k == |b| ==> b[..k] == b;
  }

  /** No two entries have the same name. */
  ghost predicate Unique(l: seq<Entry>) { forall i, j :: 0 <= i < j < |l| ==> l[i].name != l[j].name }

  // ---------- a directory as a map from names ----------

  lemma {:induction false} ByNameIn(l: seq<Entry>, name: Name)
    ensures ByName(l, name).Some? <==> exists i :: 0 <= i < |l| && l[i].name == name
    ensures ByName(l, name).Some? ==> ByName(l, name).value in l && ByName(l, name).value.name == name
  {
    if l != [] && l[0].name != name {
      ByNameIn(l[1..], name);
      if ByName(l[1..], name).Some? {
        var i :| 0 <= i < |l[1..]| && l[1..][i].name == name;
        assert l[i + 1].name == name;
      }
    }
  }

  /** A new name is added to the map, and no other name sees it. */
  lemma {:induction false} InsertedMap(l: seq<Entry>, l': seq<Entry>, e: Entry, name: Name)
    requires Inserted(l, l', e) && Unique(l) && ByName(l, e.name) == None
    ensures ByName(l', name) == (if name == e.name then Some(e) else ByName(l, name)) && Unique(l')
  {
    var i :| 0 <= i <= |l| && l' == l[..i] + [e] + l[i..];
    assert l == l[..i] + l[i..];
    InsertedName(l[..i], l[i..], e, name);
    InsertedUnique(l[..i], l[i..], e);
  }

  lemma {:induction false} InsertedName(a: seq<Entry>, c: seq<Entry>, e: Entry, name: Name)
    requires ByName(a + c, e.name) == None
    ensures ByName(a + [e] + c, name) == if name == e.name then Some(e) else ByName(a + c, name)
  {
    ByNameSplit(a, c, name);
    ByNameSplit(a + [e], c, name);
    ByNameSplit(a, [e], name);
  }

  lemma {:induction false} InsertedUnique(a: seq<Entry>, c: seq<Entry>, e: Entry)
    requires ByName(a + c, e.name) == None && Unique(a + c)
    ensures Unique(a + [e] + c)
  {
    var l, l' := a + c, a + [e] + c;
    ByNameIn(l, e.name);
    forall i, j | 0 <= i < j < |l'| ensures l'[i].name != l'[j].name {
      var i', j' := if i < |a| then i else i - 1, if j < |a| then j else j - 1;
      assert i != |a| ==> l'[i] == l[i'];
      assert j != |a| ==> l'[j] == l[j'];
    }
  }

  /** The entry that `Without` takes out. */
  function ByIno(l: seq<Entry>, ino: nat): Option<Entry> {
    if l == [] then None else if l[0].ino == ino then Some(l[0]) else ByIno(l[1..], ino)
  }

  lemma {:induction false} WithoutNone(l: seq<Entry>, ino: nat)
    ensures ByIno(l, ino) == None <==> !Has(l, ino)
    ensures ByIno(l, ino) == None ==> Without(l, ino) == l
  {
    if l != [] && l[0].ino != ino {
      WithoutNone(l[1..], ino);
      if Has(l[1..], ino) {
        var i :| 0 <= i < |l[1..]| && l[1..][i].ino == ino;
        assert l[i + 1].ino == ino;
      }
    }
  }

  /** The name of the entry taken out goes from the map, and no other name sees it. */
  lemma {:induction false} WithoutMap(l: seq<Entry>, ino: nat, name: Name)
    requires Unique(l) && ByIno(l, ino).Some?
    ensures ByName(Without(l, ino), name) == if name == ByIno(l, ino).value.name then None else ByName(l, name)
  {
    var rest := l[1..];
    assert Unique(rest) && forall i :: 0 <= i < |rest| ==> rest[i].name != l[0].name;
    if l[0].ino == ino {
      ByNameIn(rest, name);
    } else {
      WithoutMap(rest, ino, name);
      ByNameSplit([l[0]], Without(rest, ino), name);
      ByInoIn(rest, ino);
    }
  }

  lemma {:induction false} ByInoIn(l: seq<Entry>, ino: nat)
    ensures ByIno(l, ino).Some? ==> exists i :: 0 <= i < |l| && l[i] == ByIno(l, ino).value
  {
    if l != [] && l[0].ino != ino {
      ByInoIn(l[1..], ino);
      if ByIno(l, ino).Some? {
        var i :| 0 <= i < |l[1..]| && l[1..][i] == ByIno(l, ino).value;
        assert l[i + 1] == ByIno(l, ino).value;
      }
    }
  }

  lemma {:induction false} Position(k: nat)
    ensures ENTRY_SIZE * k % ENTRY_SIZE == 0 && ENTRY_SIZE * k / ENTRY_SIZE == k
  {
  }

  /** Counting through the blocks. */
  lemma {:induction false} LiveNth(all: seq<Blk>, i: nat, n: nat)
    requires i < |all|
    ensures |Live(all[..i + 1])| == |Live(all[..i])| + |LiveIn(all[i])|
    ensures n < |LiveIn(all[i])| ==>
      |Live(all[..i])| + n < |Live(all)| && Live(all)[|Live(all[..i])| + n] == LiveIn(all[i])[n]
  {
    LiveAround(all, i);
    assert all[..i + 1] == all[..i] + [all[i]];
    LiveSplit(all[..i], [all[i]]);
  }

  /** The entry number `n` of a block, or the number of its entries. */
  method SkipTo(b: Blk, n: nat) returns (c: nat, e: Option<Entry>)
    ensures n < |LiveIn(b)| ==> e == Some(LiveIn(b)[n])
    ensures n >= |LiveIn(b)| ==> e == None && c == |LiveIn(b)|
  {
    c := 0;
    var k := 0;
    assert b[..0] == [];
    while k < |b|
      invariant k <= |b| && c == |LiveIn(b[..k])| <= n
    {
      LiveInAround(b, k);
      if b[k].Full? {
        if c == n {
          return c, Some(b[k].entry);
        }
        c := c + 1;
      }
      assert b[..k + 1] == b[..k] + [b[k]];
      LiveInSplit(b[..k], [b[k]]);
      k := k + 1;
    }
    assert b[..k] == b;
    e := None;
  }

  method CountLive(b: Blk) returns (n: nat)
    ensures n == |LiveIn(b)|
  {
    n := 0;
    var k := 0;
    assert b[..0] == [];
    while k < |b|
      invariant k <= |b| && n == |LiveIn(b[..k])|
    {
      assert b[..k + 1] == b[..k] + [b[k]];
      LiveInSplit(b[..k], [b[k]]);
      if b[k].Full? {
        n := n + 1;
      }
      k := k + 1;
    }
    assert b[..k] == b;
  }

  lemma {:induction false} NotInBlock(all: seq<Blk>, i: nat, ino: nat)
    requires i < |all| && !Has(Live(all[..i]), ino) && !Has(LiveIn(all[i]), ino)
    ensures !Has(Live(all[..i + 1]), ino)
  {
    assert all[..i + 1] == all[..i] + [all[i]];
    LiveSplit(all[..i], [all[i]]);
    HasSplit(Live(all[..i]), LiveIn(all[i]), ino);
  }

  /** The inode is that of the directory itself or of its parent. */
  predicate Dotted(d: State, ino: nat)
    requires Rooted(d)
  {
    d.direct[0][0].entry.ino == ino || d.direct[0][1].entry.ino == ino
  }

  /**
   The slot found is that of the first entry of the inode; in block 0 the directory's own entry has been met, elsewhere
   it is not met.
   */
  lemma {:induction false} DeleteAt(d: State, i: nat, k: nat, ino: nat)
    requires Ok(d) && i < DIRECT + ENTRIES && k < |All(d)[i]| && All(d)[i][k].Full? && All(d)[i][k].entry.ino == ino
    requires !Has(Live(All(d)[..i]), ino) && !Has(LiveIn(All(d)[i][..k]), ino)
    ensures Has(Live(All(d)), ino) && Without(Live(All(d)), ino) == BeforeSlot(All(d), i, k) + AfterSlot(All(d), i, k)
    ensures i == 0 ==> All(d)[0][0].Full? && All(d)[0][0].entry.name == "."
    ensures i == 0 && k < 2 <==> Dotted(d, ino)
    ensures Unique(Live(All(d))) && i > 0 ==> forall j :: 0 <= j < |All(d)[i]| && All(d)[i][j].Full? ==>
      All(d)[i][j].entry.name != "."
  {
    var all := All(d);
    HasSplit(Live(all[..i]), LiveIn(all[i][..k]), ino);
    LiveAt(all, i, k);
    WithoutAt(BeforeSlot(all, i, k), all[i][k].entry, AfterSlot(all, i, k), ino);
    assert all[0] == d.direct[0];
    if i > 0 || k >= 2 { FirstTwo(d, i, k, ino); }
    if Unique(Live(all)) && i > 0 {
      forall j | 0 <= j < |all[i]| && all[i][j].Full? ensures all[i][j].entry.name != "." {
        DotElsewhere(d, i, j);
      }
    }
  }

  /** The search meets the first two entries first. */
  lemma {:induction false} FirstTwo(d: State, i: nat, k: nat, ino: nat)
    requires Shaped(d) && Rooted(d) && i < DIRECT + ENTRIES && k < |All(d)[i]|
    requires !Has(Live(All(d)[..i]), ino) && !Has(LiveIn(All(d)[i][..k]), ino) && (i > 0 || k >= 2)
    ensures !Dotted(d, ino)
  {
    var all, b := All(d), d.direct[0];
    assert all[0] == b;
    if i > 0 {
      LiveAround(all[..i], 0);
      assert all[..i][..0] == [] && all[..i][0] == b;
      HasSplit(LiveIn(b), Live(all[..i][1..]), ino);
      InBlock(b, 0, ino);
      InBlock(b, 1, ino);
    } else {
      InBlock(b[..k], 0, ino);
      InBlock(b[..k], 1, ino);
    }
  }

  lemma {:induction false} InBlock(b: Blk, k: nat, ino: nat)
    requires k < |b| && b[k].Full? && !Has(LiveIn(b), ino)
    ensures b[k].entry.ino != ino
  {
    LiveInAround(b, k);
    assert LiveIn(b)[|LiveIn(b[..k])|] == b[k].entry;
  }

  lemma {:induction false} DotElsewhere(d: State, i: nat, j: nat)
    requires Ok(d) && Unique(Live(All(d))) && 0 < i < DIRECT + ENTRIES && j < |All(d)[i]| && All(d)[i][j].Full?
    ensures All(d)[i][j].entry.name != "."
  {
    var all := All(d);
    LiveAt(all, i, j);
    LiveAt(all, 0, 0);
    assert BeforeSlot(all, 0, 0) == [];
    assert Live(all)[0] == d.direct[0][0].entry;
    LiveAround(all[..i], 0);
    TwoLive(d);
    assert |BeforeSlot(all, i, j)| > 0;
    assert Live(all)[|BeforeSlot(all, i, j)|] == all[i][j].entry;
  }

  lemma {:induction false} StillTwo(d: State, k: nat)
    requires Shaped(d) && Rooted(d) && 2 <= k < |All(d)[0]|
    ensures LiveIn(All(d)[0][k := Empty]) != []
  {
    LiveInAround(All(d)[0][k := Empty], 0);
  }

  /**
   The first index without a block, behind crowded blocks only: it is that of the table's first entry exactly when the
   table is replaced or made.
   */
  lemma {:induction false} Room(d: State, i: nat)
    requires Shaped(d) && Rooted(d) && i < DIRECT + ENTRIES && All(d)[i] == []
    requires forall j :: 0 <= j < i ==> Crowded(All(d)[j])
    ensures i > 0 && (i > DIRECT ==> d.table.Some?)
    ensures Replaces(d) <==> i == DIRECT && d.table.Some?
  {
    assert All(d)[0] == d.direct[0];
    assert forall j :: 0 <= j < DIRECT ==> All(d)[j] == d.direct[j];
    if i > DIRECT {
      assert Crowded(All(d)[DIRECT]);
    }
  }

  lemma {:induction false} NotCrowded(d: State, i: nat, k: nat)
    requires Shaped(d) && i < DIRECT + ENTRIES && k < |All(d)[i]| && All(d)[i][k] == Empty
    requires forall j :: 0 <= j < i ==> Crowded(All(d)[j])
    ensures !Replaces(d)
  {
    if i < DIRECT {
      assert All(d)[i] == d.direct[i] && !Crowded(d.direct[i]);
    } else if d.table.Some? && i > DIRECT {
      assert Crowded(All(d)[DIRECT]);
    }
  }

  lemma {:induction false} AllCrowded(d: State)
    requires Shaped(d) && forall j :: 0 <= j < DIRECT + ENTRIES ==> Crowded(All(d)[j])
    ensures !Replaces(d)
  {
    assert Crowded(All(d)[DIRECT]);
  }

  // ---------- a table that is replaced ----------

  /** Names of two characters, all different, and the two names that every directory has. */
  function NameFor(n: nat): Name
    requires n < 8192
  {
    if n == 0 then "." else if n == 1 then ".." else [(65 + n / 64) as char, (65 + n % 64) as char]
  }

  function EntryFor(n: nat): Entry
    requires n < 8192
  {
    FsDir.Entry(NameFor(n), n, n < 2)
  }

  lemma {:induction false} NamesDiffer(m: nat, n: nat)
    requires m < n < 8192
    ensures NameFor(m) != NameFor(n)
  {
    assert m == 64 * (m / 64) + m % 64 && n == 64 * (n / 64) + n % 64;
    if m >= 2 { assert NameFor(m)[0] != NameFor(n)[0] || NameFor(m)[1] != NameFor(n)[1]; }
  }

  /** The entries from number `from` on. */
  function Numbered(from: nat, n: nat): (l: seq<Entry>)
    requires from + n <= 8192
    ensures |l| == n && forall k :: 0 <= k < n ==> l[k] == EntryFor(from + k)
  {
    seq(n, k requires 0 <= k < n => EntryFor(from + k))
  }

  lemma {:induction false} NumberedSplit(from: nat, m: nat, n: nat)
    requires from + m + n <= 8192
    ensures Numbered(from, m + n) == Numbered(from, m) + Numbered(from + m, n)
  {
  }

  lemma {:induction false} NumberedPart(from: nat, n: nat, p: nat, m: nat)
    requires from + n <= 8192 && p + m <= n
    ensures Numbered(from, n)[p..p + m] == Numbered(from + p, m)
  {
  }

  /** A block full of them. */
  function Packed(from: nat, n: nat): (b: Blk)
    requires from + n <= 8192
    ensures |b| == n && (forall k :: 0 <= k < n ==> b[k] == Full(EntryFor(from + k)))
  {
    seq(n, k requires 0 <= k < n => Full(EntryFor(from + k)))
  }

  /** A block of full slots. */
  lemma {:induction false} FullLive(b: Blk, l: seq<Entry>)
    requires |b| == |l| && forall k :: 0 <= k < |l| ==> b[k] == Full(l[k])
    ensures LiveIn(b) == l
    decreases |l|
  {
    if l != [] { FullLive(b[1..], l[1..]); }
  }

  lemma {:induction false} PackedLive(from: nat, n: nat)
    requires from + n <= 8192
    ensures LiveIn(Packed(from, n)) == Numbered(from, n)
  {
    FullLive(Packed(from, n), Numbered(from, n));
  }

  /** Blocks that hold the entries of a list one after the other. */
  lemma {:induction false} ChunksLive(all: seq<Blk>, l: seq<Entry>)
    requires |l| == PER_BLOCK * |all|
    requires forall k :: 0 <= k < |all| ==> LiveIn(all[k]) == l[PER_BLOCK * k..PER_BLOCK * k + PER_BLOCK]
    ensures Live(all) == l
    decreases |all|
  {
    if all != [] {
      var rest := l[PER_BLOCK..];
      forall k | 0 <= k < |all[1..]| ensures LiveIn(all[1..][k]) == rest[PER_BLOCK * k..PER_BLOCK * k + PER_BLOCK] {
        assert LiveIn(all[k + 1]) == l[PER_BLOCK * (k + 1)..PER_BLOCK * (k + 1) + PER_BLOCK];
        Shifted(l, PER_BLOCK, PER_BLOCK * k, PER_BLOCK);
      }
      ChunksLive(all[1..], rest);
      assert l == l[..PER_BLOCK] + rest && LiveIn(all[0]) == l[..PER_BLOCK];
    }
  }

  lemma {:induction false} Shifted<T>(l: seq<T>, a: nat, p: nat, n: nat)
    requires a + p + n <= |l|
    ensures l[a..][p..p + n] == l[a + p..a + p + n]
  {
  }

  /** Blocks full of the entries from number 170 times `from` on. */
  function PackedBlocks(from: nat, n: nat): (all: seq<Blk>)
    requires PER_BLOCK * (from + n) <= 8192
    ensures |all| == n && forall k :: 0 <= k < n ==> all[k] == Packed(PER_BLOCK * (from + k), PER_BLOCK)
  {
    seq(n, k requires 0 <= k < n => Packed(PER_BLOCK * (from + k), PER_BLOCK))
  }

  lemma {:induction false} PackedBlocksLive(from: nat, n: nat)
    requires PER_BLOCK * (from + n) <= 8192
    ensures Live(PackedBlocks(from, n)) == Numbered(PER_BLOCK * from, PER_BLOCK * n)
  {
    var all, l := PackedBlocks(from, n), Numbered(PER_BLOCK * from, PER_BLOCK * n);
    forall k | 0 <= k < n ensures LiveIn(all[k]) == l[PER_BLOCK * k..PER_BLOCK * k + PER_BLOCK] {
      PackedLive(PER_BLOCK * (from + k), PER_BLOCK);
      NumberedPart(PER_BLOCK * from, PER_BLOCK * n, PER_BLOCK * k, PER_BLOCK);
    }
    ChunksLive(all, l);
  }

  lemma {:induction false} NoneLive(all: seq<Blk>)
    requires forall k :: 0 <= k < |all| ==> all[k] == []
    ensures Live(all) == []
  {
    if all != [] { NoneLive(all[1..]); }
  }

  /** A table with only entry 1 in use. */
  function HollowTable(): (all: seq<Blk>)
    ensures |all| == ENTRIES && all[0] == []
  {
    [[]] + PackedBlocks(DIRECT, 1) + NoBlocks(ENTRIES - 2)
  }

  /** All direct blocks full, and such a table: 2210 entries. */
  function Hollow(): State {
    State(PackedBlocks(0, DIRECT), Some(HollowTable()), ENTRY_SIZE * (PER_BLOCK * (DIRECT + 1)))
  }

  lemma {:induction false} LiveLone(b: Blk, n: nat)
    ensures Live([[]] + [b] + NoBlocks(n)) == LiveIn(b)
  {
    LiveSplit([[]] + [b], NoBlocks(n));
    LiveSplit([[]], [b]);
    assert Live([[]]) == [] && Live([b]) == LiveIn(b);
    NoneLive(NoBlocks(n));
  }

  lemma {:induction false} HollowTableLive()
    ensures Live(HollowTable()) == Numbered(PER_BLOCK * DIRECT, PER_BLOCK)
  {
    var b := Packed(PER_BLOCK * DIRECT, PER_BLOCK);
    assert PackedBlocks(DIRECT, 1) == [b];
    LiveLone(b, ENTRIES - 2);
    PackedLive(PER_BLOCK * DIRECT, PER_BLOCK);
  }

  lemma {:induction false} HollowLive()
    ensures Live(All(Hollow())) == Numbered(0, PER_BLOCK * DIRECT) + Numbered(PER_BLOCK * DIRECT, PER_BLOCK)
  {
    HollowTableLive();
    LiveSplit(PackedBlocks(0, DIRECT), HollowTable());
    PackedBlocksLive(0, DIRECT);
  }

  lemma {:induction false} HollowTight()
    ensures Shaped(Hollow()) && Rooted(Hollow()) && Tight(Hollow())
  {
    forall i | 0 <= i < DIRECT ensures LiveIn(Hollow().direct[i]) != [] { PackedLive(PER_BLOCK * i, PER_BLOCK); }
    PackedLive(PER_BLOCK * DIRECT, PER_BLOCK);
    var t := HollowTable();
    assert t[1] == Packed(PER_BLOCK * DIRECT, PER_BLOCK);
    assert forall i :: 2 <= i < ENTRIES ==> t[i] == NoBlocks(ENTRIES - 2)[i - 2];
    AllocatedSome(t);
  }

  /** A directory in order, with different names, whose table the next entry replaces. */
  lemma {:induction false} ReplacesExample()
    ensures Ok(Hollow()) && Replaces(Hollow()) && Unique(Live(All(Hollow())))
  {
    HollowTight();
    HollowLive();
    NumberedSplit(0, PER_BLOCK * DIRECT, PER_BLOCK);
    var l := Numbered(0, PER_BLOCK * (DIRECT + 1));
    forall i, j | 0 <= i < j < |l| ensures l[i].name != l[j].name {
      NamesDiffer(i, j);
    }
  }
}
