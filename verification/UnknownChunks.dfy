/** The list of chunk names with special handling (pngset.c): a byte array of
    five-byte entries, updated and compacted in place, that stands for a finite map
    from names to handling codes with default 0. */
module UnknownChunks {
  import opened Arithmetic

  type Name = seq<byte>

  const HANDLE_CHUNK_LAST: int := 4
  const UINT_MAX: nat := 0xffff_ffff

  datatype Entry = Entry(name: Name, keep: byte)

  // ---------------------------------------------------------------- lists of entries

  /** The code of the last entry for a name, 0 if there is none. */
  function Get(es: seq<Entry>, name: Name): byte {
    if es == [] then 0
    else if es[|es| - 1].name == name then es[|es| - 1].keep
    else Get(es[..|es| - 1], name)
  }

  predicate Listed(es: seq<Entry>, name: Name) {
    exists i :: 0 <= i < |es| && es[i].name == name
  }

  predicate NoDuplicates(es: seq<Entry>) {
    forall i, j :: 0 <= i < j < |es| ==> es[i].name != es[j].name
  }

  predicate NoDefaults(es: seq<Entry>) {
    forall i :: 0 <= i < |es| ==> es[i].keep != 0
  }

  /** The index of the first entry for a name, or the length. */
  function Find(es: seq<Entry>, name: Name, i: nat): (k: nat)
    requires i <= |es|
    ensures i <= k <= |es| && (k < |es| ==> es[k].name == name)
    ensures forall j :: i <= j < k ==> es[j].name != name
    decreases |es| - i
  {
    if i == |es| || es[i].name == name then i else Find(es, name, i + 1)
  }

  /** add_one_chunk */
  function AddOne(es: seq<Entry>, name: Name, keep: byte): seq<Entry> {
    var k := Find(es, name, 0);
    if k < |es| then es[k := Entry(name, keep)]
    else if keep != 0 then es + [Entry(name, keep)]
    else es
  }

  function AddAll(es: seq<Entry>, names: seq<Name>, keep: byte): seq<Entry> {
    if names == [] then es
    else AddOne(AddAll(es, names[..|names| - 1], keep), names[|names| - 1], keep)
  }

  /** The removal of entries with the default code. */
  function Compact(es: seq<Entry>): seq<Entry> {
    if es == [] then []
    else Compact(es[..|es| - 1]) + if es[|es| - 1].keep != 0 then [es[|es| - 1]] else []
  }

  lemma {:induction false} GetAbsent(es: seq<Entry>, name: Name)
    requires !Listed(es, name)
    ensures Get(es, name) == 0
  {
    if es != [] {
      var init := es[..|es| - 1];
      assert es[|es| - 1].name != name;
      assert forall i :: 0 <= i < |init| ==> init[i] == es[i];
      GetAbsent(init, name);
    }
  }

  lemma {:induction false} GetUpdate(es: seq<Entry>, k: nat, keep: byte, name: Name)
    requires k < |es| && NoDuplicates(es)
    ensures var es' := es[k := Entry(es[k].name, keep)];
      NoDuplicates(es') && Get(es', name) == if name == es[k].name then keep else Get(es, name)
  {
    var n := |es| - 1;
    var es' := es[k := Entry(es[k].name, keep)];
    if k < n {
      GetUpdate(es[..n], k, keep, name);
      assert es'[..n] == es[..n][k := Entry(es[k].name, keep)];
    } else {
      assert es'[..n] == es[..n];
    }
  }

  /** Adding one name changes that setting and nothing else. */
  lemma AddOneSets(es: seq<Entry>, name: Name, keep: byte, x: Name)
    requires NoDuplicates(es)
    ensures NoDuplicates(AddOne(es, name, keep))
    ensures |AddOne(es, name, keep)| <= |es| + (if keep != 0 then 1 else 0)
    ensures Get(AddOne(es, name, keep), x) == if x == name then keep else Get(es, x)
  {
    var k := Find(es, name, 0);
    if k < |es| {
      GetUpdate(es, k, keep, x);
    } else if keep != 0 {
      assert (es + [Entry(name, keep)])[..|es|] == es;
    } else {
      GetAbsent(es, name);
    }
  }

  lemma {:induction false} AddAllSets(es: seq<Entry>, names: seq<Name>, keep: byte, x: Name)
    requires NoDuplicates(es)
    ensures NoDuplicates(AddAll(es, names, keep))
    ensures |AddAll(es, names, keep)| <= |es| + (if keep != 0 then |names| else 0)
    ensures Get(AddAll(es, names, keep), x) == if x in names then keep else Get(es, x)
  {
    if names != [] {
      var n := |names| - 1;
      assert names == names[..n] + [names[n]];
      AddAllSets(es, names[..n], keep, x);
      AddOneSets(AddAll(es, names[..n], keep), names[n], keep, x);
    }
  }

  lemma {:induction false} CompactNames(es: seq<Entry>)
    ensures |Compact(es)| <= |es| && NoDefaults(Compact(es))
    ensures forall e :: e in Compact(es) ==> e in es
  {
    if es != [] {
      CompactNames(es[..|es| - 1]);
    }
  }

  /** Without duplicates, the last name is not among the ones before it. */
  lemma LastNotListed(es: seq<Entry>)
    requires es != [] && NoDuplicates(es)
    ensures !Listed(Compact(es[..|es| - 1]), es[|es| - 1].name)
  {
    var n := |es| - 1;
    CompactNames(es[..n]);
    var c := Compact(es[..n]);
    forall i | 0 <= i < |c|
      ensures c[i].name != es[n].name
    {
      assert c[i] in es[..n];
      var j :| 0 <= j < n && es[..n][j] == c[i];
      assert es[j].name != es[n].name;
    }
  }

  /** Compaction changes no setting. */
  lemma {:induction false} CompactKeepsSettings(es: seq<Entry>, x: Name)
    requires NoDuplicates(es)
    ensures NoDuplicates(Compact(es)) && NoDefaults(Compact(es)) && |Compact(es)| <= |es|
    ensures Get(Compact(es), x) == Get(es, x)
  {
    CompactNames(es);
    if es != [] {
      var init, last := es[..|es| - 1], es[|es| - 1];
      CompactKeepsSettings(init, x);
      LastNotListed(es);
      var c := Compact(init);
      if last.keep != 0 {
        Snoc(c, last, x);
      } else {
        assert Compact(es) == c;
        if x == last.name {
          GetAbsent(c, x);
        }
      }
    }
  }

  lemma Snoc(c: seq<Entry>, e: Entry, x: Name)
    requires NoDuplicates(c) && !Listed(c, e.name)
    ensures NoDuplicates(c + [e])
    ensures Get(c + [e], x) == if x == e.name then e.keep else Get(c, x)
  {
    assert (c + [e])[..|c|] == c;
  }

  // ---------------------------------------------------------------- the byte array

  /** Entry i of a byte array. */
  function EntryAt(a: array<byte>, i: nat): Entry
    requires 5 * i + 5 <= a.Length
    reads a
  {
    Entry(a[5 * i..5 * i + 4], a[5 * i + 4])
  }

  function Entries(a: array<byte>, n: nat): (es: seq<Entry>)
    requires 5 * n <= a.Length
    ensures |es| == n
    reads a
  {
    if n == 0 then [] else Entries(a, n - 1) + [EntryAt(a, n - 1)]
  }

  lemma {:induction false} EntriesAt(a: array<byte>, n: nat, i: nat)
    requires i < n && 5 * n <= a.Length
    ensures Entries(a, n)[i] == EntryAt(a, i)
  {
    if i < n - 1 {
      EntriesAt(a, n - 1, i);
    }
  }

  /** memcmp(list + 5 * i, name, 4) == 0 */
  method SameName(a: array<byte>, i: nat, name: Name) returns (same: bool)
    requires 5 * i + 5 <= a.Length && |name| == 4
    ensures same <==> EntryAt(a, i).name == name
  {
    same := a[5 * i] == name[0] && a[5 * i + 1] == name[1] && a[5 * i + 2] == name[2] && a[5 * i + 3] == name[3];
  }

  /** Writes entry i; the entries before it and behind it stay. */
  method WriteEntry(a: array<byte>, i: nat, e: Entry)
    requires 5 * i + 5 <= a.Length && |e.name| == 4
    modifies a
    ensures EntryAt(a, i) == e
    ensures forall k :: 0 <= k && 5 * k + 5 <= a.Length && k != i ==> EntryAt(a, k) == old(EntryAt(a, k))
  {
    a[5 * i], a[5 * i + 1], a[5 * i + 2], a[5 * i + 3] := e.name[0], e.name[1], e.name[2], e.name[3];
    a[5 * i + 4] := e.keep;
    forall k | 0 <= k && 5 * k + 5 <= a.Length && k != i
      ensures EntryAt(a, k) == old(EntryAt(a, k))
    {
      assert 5 * k + 4 < 5 * i || 5 * i + 4 < 5 * k;
      assert a[5 * k..5 * k + 4] == old(a[5 * k..5 * k + 4]);
    }
  }

  lemma {:induction false} FindContinues(es: seq<Entry>, name: Name, i: nat)
    requires i <= |es| && forall j :: 0 <= j < i ==> es[j].name != name
    ensures Find(es, name, 0) == Find(es, name, i)
  {
    if i > 0 {
      FindContinues(es, name, i - 1);
    }
  }

  /** Rewrites one of the first n entries. */
  method SetEntry(a: array<byte>, n: nat, i: nat, e: Entry)
    requires i < n && 5 * n <= a.Length && |e.name| == 4
    modifies a
    ensures Entries(a, n) == old(Entries(a, n))[i := e]
  {
    ghost var es := Entries(a, n);
    EntriesAll(a, n, es);
    WriteEntry(a, i, e);
    hide Entries;
    EntriesAre(a, n, es[i := e]);
  }

  /** Writes the entry behind the first n; those further behind stay. */
  method PushEntry(a: array<byte>, n: nat, e: Entry)
    requires 5 * n + 5 <= a.Length && |e.name| == 4
    modifies a
    ensures Entries(a, n + 1) == old(Entries(a, n)) + [e]
    ensures forall k :: n < k && 5 * k + 5 <= a.Length ==> EntryAt(a, k) == old(EntryAt(a, k))
  {
    ghost var es := Entries(a, n);
    EntriesAll(a, n, es);
    WriteEntry(a, n, e);
    hide Entries;
    EntriesAre(a, n + 1, es + [e]);
  }

  lemma EntriesAre(a: array<byte>, n: nat, es: seq<Entry>)
    requires 5 * n <= a.Length && n == |es|
    requires forall k :: 0 <= k < n ==> EntryAt(a, k) == es[k]
    ensures Entries(a, n) == es
  {
    forall k | 0 <= k < n
      ensures Entries(a, n)[k] == es[k]
    {
      EntriesAt(a, n, k);
    }
  }

  lemma EntriesAll(a: array<byte>, n: nat, es: seq<Entry>)
    requires 5 * n <= a.Length && es == Entries(a, n)
    ensures forall k :: 0 <= k < n ==> EntryAt(a, k) == es[k]
  {
    forall k | 0 <= k < n
      ensures EntryAt(a, k) == es[k]
    {
      EntriesAt(a, n, k);
    }
  }

  /** add_one_chunk */
  method AddOneChunk(a: array<byte>, count: nat, name: Name, keep: byte) returns (count': nat)
    requires 5 * count <= a.Length && |name| == 4
    requires keep != 0 ==> 5 * count + 5 <= a.Length
    modifies a
    ensures 5 * count' <= a.Length && Entries(a, count') == AddOne(old(Entries(a, count)), name, keep)
  {
    hide Entries, EntryAt;
    ghost var es := Entries(a, count);
    var i := 0;
    while i < count
      invariant i <= count && es == Entries(a, count)
      invariant forall j :: 0 <= j < i ==> es[j].name != name
    {
      EntriesAt(a, count, i);
      var same := SameName(a, i, name);
      if same {
        FindContinues(es, name, i);
        SetEntry(a, count, i, Entry(name, keep));
        return count;
      }
      i := i + 1;
    }
    FindContinues(es, name, count);
    if keep != 0 {
      PushEntry(a, count, Entry(name, keep));
      return count + 1;
    }
    return count;
  }

  lemma CompactSnoc(es: seq<Entry>, i: nat)
    requires i < |es|
    ensures Compact(es[..i + 1]) == Compact(es[..i]) + if es[i].keep != 0 then [es[i]] else []
  {
    assert es[..i + 1][..i] == es[..i];
  }

  lemma NothingCompacted(a: array<byte>, es: seq<Entry>)
    ensures Entries(a, 0) == Compact(es[..0])
  {
  }

  /** memcpy(outlist, inlist, 5) */
  method CopyEntry(a: array<byte>, to: nat, from: nat)
    requires to < from && 5 * from + 5 <= a.Length
    modifies a
    ensures Entries(a, to + 1) == old(Entries(a, to)) + [old(EntryAt(a, from))]
    ensures forall k :: to < k && 5 * k + 5 <= a.Length ==> EntryAt(a, k) == old(EntryAt(a, k))
  {
    PushEntry(a, to, Entry(a[5 * from..5 * from + 4], a[5 * from + 4]));
  }

  lemma OneMoreEntry(a: array<byte>, n: nat)
    requires 5 * n + 5 <= a.Length
    ensures Entries(a, n + 1) == Entries(a, n) + [EntryAt(a, n)]
    ensures EntryAt(a, n).keep == a[5 * n + 4]
  {
  }

  /** The loop that squeezes out default entries, in place. */
  method CompactList(a: array<byte>, count: nat) returns (kept: nat)
    requires 5 * count <= a.Length
    modifies a
    ensures kept <= count && Entries(a, kept) == Compact(old(Entries(a, count)))
  {
    hide Entries, EntryAt, Compact;
    ghost var es := Entries(a, count);
    NothingCompacted(a, es);
    EntriesAll(a, count, es);
    kept := 0;
    var i := 0;
    while i < count
      invariant kept <= i <= count
      invariant Entries(a, kept) == Compact(es[..i])
      invariant forall k :: i <= k < count ==> EntryAt(a, k) == es[k]
    {
      CompactSnoc(es, i);
      OneMoreEntry(a, i);
      if a[5 * i + 4] != 0 {
        if kept != i {
          CopyEntry(a, kept, i);
        }
        kept := kept + 1;
      }
      i := i + 1;
    }
    assert es[..count] == es;
  }

  /** The first n names of a caller's list of five-byte entries. */
  function NamesOf(list: seq<byte>, n: nat): seq<Name>
    requires 5 * n <= |list|
  {
    if n == 0 then [] else NamesOf(list, n - 1) + [list[5 * n - 5..5 * n - 1]]
  }

  /** bKGD cHRM eXIf gAMA hIST iCCP iTXt oFFs pCAL pHYs sBIT sCAL sPLT sTER sRGB tEXt tIME zTXt */
  const CHUNKS_TO_IGNORE: seq<byte> := [
    98, 75, 71, 68, 0, 99, 72, 82, 77, 0, 101, 88, 73, 102, 0, 103, 65, 77, 65, 0, 104, 73, 83, 84, 0,
    105, 67, 67, 80, 0, 105, 84, 88, 116, 0, 111, 70, 70, 115, 0, 112, 67, 65, 76, 0, 112, 72, 89, 115, 0,
    115, 66, 73, 84, 0, 115, 67, 65, 76, 0, 115, 80, 76, 84, 0, 115, 84, 69, 82, 0, 115, 82, 71, 66, 0,
    116, 69, 88, 116, 0, 116, 73, 77, 69, 0, 122, 84, 88, 116, 0]

  /** A successful request to handle some names in one way. */
  datatype Request = Request(names: seq<Name>, keep: byte)

  /** The code the most recent request gave a name, 0 if there was none. */
  function LastSetting(history: seq<Request>, name: Name): byte {
    if history == [] then 0
    else if name in history[|history| - 1].names then history[|history| - 1].keep
    else LastSetting(history[..|history| - 1], name)
  }

  class KeepList {
    var chunkList: array?<byte>
    var numChunkList: nat
    var unknownDefault: int
    ghost var history: seq<Request>

    /** The list is well formed, and it holds the last setting of every name. */
    ghost predicate Valid()
      reads this, chunkList
    {
      WellFormed() && forall x :: Get(Contents(), x) == LastSetting(history, x)
    }

    ghost predicate WellFormed()
      reads this, chunkList
    {
      if chunkList == null then numChunkList == 0
      else
        && 5 * numChunkList <= chunkList.Length
        && NoDuplicates(Entries(chunkList, numChunkList)) && NoDefaults(Entries(chunkList, numChunkList))
    }

    /** The list as entries. */
    ghost function Contents(): seq<Entry>
      requires WellFormed()
      reads this, chunkList
    {
      if chunkList == null then [] else Entries(chunkList, numChunkList)
    }

    /** The handling code of a name. */
    ghost function Setting(name: Name): byte
      requires Valid()
      reads this, chunkList
    {
      Get(Contents(), name)
    }

    constructor ()
      ensures Valid() && Contents() == [] && history == []
    {
      chunkList, numChunkList, unknownDefault, history := null, 0, 0, [];
    }

    /** png_handle_as_unknown: the backward scan finds the setting. */
    method HandleAsUnknown(name: Name) returns (code: byte)
      requires Valid() && |name| == 4
      ensures code == Setting(name) == LastSetting(history, name)
    {
      assert Get(Contents(), name) == LastSetting(history, name);
      if numChunkList == 0 {
        return 0;
      }
      var i := numChunkList;
      assert Entries(chunkList, i)[..i] == Entries(chunkList, i);
      while i > 0
        invariant i <= numChunkList
        invariant Get(Entries(chunkList, i), name) == Setting(name)
      {
        i := i - 1;
        var same := SameName(chunkList, i, name);
        assert Entries(chunkList, i + 1)[..i] == Entries(chunkList, i);
        if same {
          return chunkList[5 * i + 4];
        }
      }
      return 0;
    }

    /** png_set_keep_unknown_chunks. Failure is one of its application errors, which
        change nothing but the default. */
    method SetKeepUnknownChunks(keep: int, list: Option<seq<byte>>, numIn: int) returns (ok: bool)
      requires Valid()
      requires list.Some? && numIn > 0 ==> 5 * numIn <= |list.value|
      modifies this, chunkList
      ensures Valid() && (chunkList == null || chunkList == old(chunkList) || fresh(chunkList))
      ensures ok <==> && 0 <= keep < HANDLE_CHUNK_LAST && (numIn > 0 ==> list.Some?)
                      && (numIn != 0 ==> (if numIn < 0 then 18 else numIn) + |old(Contents())| <= UINT_MAX / 5)
      ensures unknownDefault == if 0 <= keep < HANDLE_CHUNK_LAST && numIn <= 0 then keep else old(unknownDefault)
      ensures history == old(history) + if ok && numIn != 0 then [Request(Named(list, numIn), keep)] else []
      ensures forall x :: Setting(x) ==
                if ok && numIn != 0 && x in Named(list, numIn) then keep else old(Setting(x))
    {
      if keep < 0 || keep >= HANDLE_CHUNK_LAST {
        return false;
      }
      if numIn <= 0 {
        unknownDefault := keep;
        if numIn == 0 {
          return true;
        }
      }
      var names: seq<byte>, n: nat;
      if numIn < 0 {
        names, n := CHUNKS_TO_IGNORE, 18;
      } else {
        if list.None? {
          return false;
        }
        names, n := list.value, numIn;
      }
      if n + numChunkList > UINT_MAX / 5 {
        return false;
      }
      Update(keep, names, n);
      return true;
    }

    /** The part of png_set_keep_unknown_chunks that works on the list. */
    method Update(keep: byte, names: seq<byte>, n: nat)
      requires Valid() && 5 * n <= |names|
      modifies this`chunkList, this`numChunkList, this`history, chunkList
      ensures Valid() && (chunkList == null || chunkList == old(chunkList) || fresh(chunkList))
      ensures history == old(history) + [Request(NamesOf(names, n), keep)]
      ensures forall x :: Setting(x) == if x in NamesOf(names, n) then keep else old(Setting(x))
    {
      hide Entries, AddAll, Compact, Get, NoDefaults, NamesOf, LastSetting;
      ghost var es := Contents();
      ghost var request := Request(NamesOf(names, n), keep);
      Remember(history, request);
      history := history + [request];
      var newList: array?<byte>;
      if keep != 0 {
        newList := Extended(n);
      } else {
        newList := chunkList;
      }
      ghost var all := AddAll(es, NamesOf(names, n), keep);
      UpdateSets(es, NamesOf(names, n), keep);
      if newList == null {
        AddNothing(NamesOf(names, n));
        numChunkList := 0;
        CompactNothing();
        assert Contents() == Compact(all);
      } else {
        var count := AddChunks(newList, numChunkList, names, n, keep);
        count := CompactList(newList, count);
        chunkList := if count == 0 then null else newList;
        numChunkList := count;
        assert Contents() == Compact(all);
      }
    }

    /** A larger copy of the list, with room for n more entries. */
    method Extended(n: nat) returns (bigger: array<byte>)
      requires WellFormed()
      ensures fresh(bigger) && bigger.Length == 5 * (n + numChunkList)
      ensures Entries(bigger, numChunkList) == Contents()
    {
      var fill: byte := 0;
      bigger := new byte[5 * (n + numChunkList)](_ => fill);
      if chunkList != null {
        forall k | 0 <= k < 5 * numChunkList {
          bigger[k] := chunkList[k];
        }
        SameEntries(chunkList, bigger, numChunkList);
      }
    }
  }

  lemma Remember(history: seq<Request>, r: Request)
    ensures forall x :: LastSetting(history + [r], x) == if x in r.names then r.keep else LastSetting(history, x)
  {
    assert (history + [r])[..|history|] == history;
  }

  /** Adding names and compacting changes exactly their settings. */
  lemma UpdateSets(es: seq<Entry>, names: seq<Name>, keep: byte)
    requires NoDuplicates(es)
    ensures var es' := Compact(AddAll(es, names, keep));
      && NoDuplicates(es') && NoDefaults(es')
      && forall x :: Get(es', x) == if x in names then keep else Get(es, x)
  {
    var all := AddAll(es, names, keep);
    AddAllSets(es, names, keep, []);
    CompactKeepsSettings(all, []);
    forall x
      ensures Get(Compact(all), x) == if x in names then keep else Get(es, x)
    {
      AddAllSets(es, names, keep, x);
      CompactKeepsSettings(all, x);
    }
  }

  lemma CompactNothing()
    ensures Compact([]) == []
  {
  }

  function Named(list: Option<seq<byte>>, numIn: int): seq<Name>
    requires list.Some? && numIn > 0 ==> 5 * numIn <= |list.value|
  {
    if numIn < 0 then NamesOf(CHUNKS_TO_IGNORE, 18)
    else if list.Some? then NamesOf(list.value, numIn) else []
  }

  /** Name i of a list is four bytes from 5 i on. */
  lemma {:induction false} NamesAt(list: seq<byte>, n: nat, i: nat)
    requires i < n && 5 * n <= |list|
    ensures |NamesOf(list, n)| == n && NamesOf(list, n)[i] == list[5 * i..5 * i + 4]
  {
    NamesLength(list, n - 1);
    if i < n - 1 {
      NamesAt(list, n - 1, i);
    }
  }

  lemma {:induction false} NamesLength(list: seq<byte>, n: nat)
    requires 5 * n <= |list|
    ensures |NamesOf(list, n)| == n
  {
    if n > 0 {
      NamesLength(list, n - 1);
    }
  }

  lemma {:induction false} AddNothing(names: seq<Name>)
    ensures AddAll([], names, 0) == []
  {
    if names != [] {
      AddNothing(names[..|names| - 1]);
    }
  }

  lemma {:induction false} SameEntries(a: array<byte>, b: array<byte>, n: nat)
    requires 5 * n <= a.Length && 5 * n <= b.Length && forall k :: 0 <= k < 5 * n ==> a[k] == b[k]
    ensures Entries(a, n) == Entries(b, n)
  {
    if n > 0 {
      SameEntries(a, b, n - 1);
      assert a[5 * n - 5..5 * n - 1] == b[5 * n - 5..5 * n - 1];
    }
  }

  lemma NoneAdded(es: seq<Entry>, names: seq<byte>, keep: byte)
    ensures AddAll(es, NamesOf(names, 0), keep) == es
  {
  }

  lemma OneMoreAdded(es: seq<Entry>, names: seq<byte>, i: nat, keep: byte)
    requires 5 * i + 5 <= |names|
    ensures AddAll(es, NamesOf(names, i + 1), keep)
         == AddOne(AddAll(es, NamesOf(names, i), keep), names[5 * i..5 * i + 4], keep)
  {
    NamesLength(names, i);
    assert NamesOf(names, i + 1)[..i] == NamesOf(names, i);
  }

  /** The loop over the caller's names. */
  method AddChunks(a: array<byte>, count0: nat, names: seq<byte>, n: nat, keep: byte) returns (count: nat)
    requires 5 * count0 <= a.Length && 5 * n <= |names| && NoDuplicates(Entries(a, count0))
    requires keep != 0 ==> a.Length == 5 * (n + count0)
    modifies a
    ensures 5 * count <= a.Length && Entries(a, count) == AddAll(old(Entries(a, count0)), NamesOf(names, n), keep)
  {
    hide Entries, AddAll, AddOne, NamesOf, Get, NoDuplicates;
    count := count0;
    NoneAdded(Entries(a, count0), names, keep);
    ghost var es := Entries(a, count0);
    var i := 0;
    while i < n
      invariant i <= n && 5 * count <= a.Length
      invariant Entries(a, count) == AddAll(es, NamesOf(names, i), keep)
    {
      NamesLength(names, i);
      AddAllSets(es, NamesOf(names, i), keep, []);
      var name := names[5 * i..5 * i + 4];
      count := AddOneChunk(a, count, name, keep);
      OneMoreAdded(es, names, i, keep);
      i := i + 1;
    }
  }
}
