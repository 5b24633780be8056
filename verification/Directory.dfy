/** The root directory block: finding and adding entries (lab4/dir.c:18-57, 212-254). */
module Directory {
  import opened Bytes
  import opened State

  datatype Option<+T> = None | Some(value: T)

  ghost predicate NoNul(name: seq<byte>) {
    forall i :: 0 <= i < |name| ==> name[i] != 0
  }

  /** The first of the entries from `i` to `n` with this name, or `n`. */
  function FindEntry(block: seq<byte>, i: nat, n: nat, name: seq<byte>): (r: nat)
    requires i <= n <= MaxEntries(|block|)
    ensures i <= r <= n
    ensures forall j :: i <= j < r ==> EntryName(block, j) != name
    ensures r < n ==> EntryName(block, r) == name
    decreases n - i
  {
    if i < n && EntryName(block, i) != name then FindEntry(block, i + 1, n, name) else i
  }

  /** Writes entry `i`: the name, its terminator and the inode number (lab4/dir.c:246-248). */
  function PutEntry(block: seq<byte>, i: nat, name: seq<byte>, ino: word): (r: seq<byte>)
    requires i < MaxEntries(|block|) && |name| < NAME_LIMIT
    ensures |r| == |block|
  {
    Put32(Splice(block, ENTRY_SIZE * i, name + [0]), ENTRY_SIZE * i + 256, ino)
  }

  lemma {:induction false} CStringOf(name: seq<byte>, rest: seq<byte>)
    requires NoNul(name)
    ensures CString(name + [0] + rest) == name
  {
    if name == [] {
      assert ([] + [0] + rest)[0] == 0;
    } else {
      var s := name + [0] + rest;
      assert s[0] == name[0] && s[1..] == name[1..] + [0] + rest;
      CStringOf(name[1..], rest);
    }
  }

  lemma {:induction false} PutEntryBytes(block: seq<byte>, i: nat, name: seq<byte>, ino: word)
    requires i < MaxEntries(|block|) && |name| < NAME_LIMIT
    ensures var r, at := PutEntry(block, i, name, ino), ENTRY_SIZE * i;
            && EntryInode(r, i) == ino
            && (forall x :: 0 <= x <= |name| ==> r[at + x] == if x < |name| then name[x] else 0)
            && (forall x :: 0 <= x < |block| && !(at <= x < at + ENTRY_SIZE) ==> r[x] == block[x])
  {
  }

  /** Where the parts of an entry are: its name in at most 255 bytes, its inode number after them. */
  lemma {:induction false} EntryLayout(block: seq<byte>, i: nat, name: seq<byte>, ino: word)
    requires 260 * (i + 1) <= |block| && |name| <= 254 && NoNul(name)
    ensures i < MaxEntries(|block|)
    ensures var r := PutEntry(block, i, name, ino);
            && Get32(r, 260 * i + 256) == ino
            && r[260 * i..260 * i + |name|] == name && r[260 * i + |name|] == 0
            && r[..260 * i] == block[..260 * i] && r[260 * (i + 1)..] == block[260 * (i + 1)..]
  {
    PutEntryBytes(block, i, name, ino);
    hide PutEntry;
    var r, at := PutEntry(block, i, name, ino), 260 * i;
    assert forall x :: 0 <= x < |name| ==> r[at..at + |name|][x] == name[x];
  }

  lemma {:induction false} PutEntryName(block: seq<byte>, i: nat, name: seq<byte>, ino: word)
    requires i < MaxEntries(|block|) && |name| < NAME_LIMIT && NoNul(name)
    ensures EntryName(PutEntry(block, i, name, ino), i) == name
  {
    var r, at := PutEntry(block, i, name, ino), ENTRY_SIZE * i;
    PutEntryBytes(block, i, name, ino);
    hide PutEntry;
    var field := r[at..at + NAME_LIMIT];
    var rest := field[|name| + 1..];
    assert field == name + [0] + rest by {
      assert forall x :: 0 <= x <= |name| ==> field[x] == r[at + x];
    }
    CStringOf(name, rest);
  }

  /** The entry just written reads back; every earlier entry is as before. */
  lemma {:induction false} PutEntryMeaning(block: seq<byte>, i: nat, name: seq<byte>, ino: word)
    requires i < MaxEntries(|block|) && |name| < NAME_LIMIT && NoNul(name)
    ensures var r := PutEntry(block, i, name, ino);
            && EntryName(r, i) == name && EntryInode(r, i) == ino
            && forall j ::
                 0 <= j < i ==> EntryName(r, j) == EntryName(block, j) && EntryInode(r, j) == EntryInode(block, j)
  {
    PutEntryName(block, i, name, ino);
    PutEntryBytes(block, i, name, ino);
    hide PutEntry;
    var r := PutEntry(block, i, name, ino);
    forall j | 0 <= j < i
      ensures EntryName(r, j) == EntryName(block, j) && EntryInode(r, j) == EntryInode(block, j)
    {
      var a := ENTRY_SIZE * j;
      assert r[a..a + NAME_LIMIT] == block[a..a + NAME_LIMIT];
    }
  }

  lemma {:induction false} AddedEntry(block: seq<byte>, n: nat, name: seq<byte>)
    requires EntriesOk(block, n) && n < MaxEntries(|block|) && n + 2 < U32
    requires |name| < NAME_LIMIT && NoNul(name) && FindEntry(block, 0, n, name) == n
    ensures EntriesOk(PutEntry(block, n, name, n + 2), n + 1)
  {
    PutEntryMeaning(block, n, name, n + 2);
    hide PutEntry, EntryName, EntryInode;
  }

  // ---------------------------------------------------------------- the directory as a map

  /** The map from names to inode numbers that the first `n` entries stand for. */
  ghost function Names(block: seq<byte>, n: nat): map<seq<byte>, nat>
    requires n <= MaxEntries(|block|)
  {
    if n == 0 then map[] else Names(block, n - 1)[EntryName(block, n - 1) := EntryInode(block, n - 1)]
  }

  lemma {:induction false} NamesMissing(block: seq<byte>, n: nat, name: seq<byte>)
    requires n <= MaxEntries(|block|)
    requires forall j :: 0 <= j < n ==> EntryName(block, j) != name
    ensures name !in Names(block, n)
  {
    if n > 0 {
      NamesMissing(block, n - 1, name);
    }
  }

  lemma {:induction false} NamesFound(block: seq<byte>, n: nat, i: nat)
    requires EntriesOk(block, n) && i < n
    ensures EntryName(block, i) in Names(block, n)
    ensures Names(block, n)[EntryName(block, i)] == EntryInode(block, i)
  {
    if i < n - 1 {
      NamesFound(block, n - 1, i);
    }
  }

  /** Searching the entries is looking up the map. */
  lemma {:induction false} NamesMeaning(block: seq<byte>, n: nat, name: seq<byte>)
    requires EntriesOk(block, n)
    ensures var i := FindEntry(block, 0, n, name);
            if i == n then name !in Names(block, n)
            else name in Names(block, n) && Names(block, n)[name] == EntryInode(block, i) == i + 2
  {
    var i := FindEntry(block, 0, n, name);
    if i == n {
      NamesMissing(block, n, name);
    } else {
      NamesFound(block, n, i);
    }
  }

  lemma {:induction false} NamesSame(a: seq<byte>, b: seq<byte>, n: nat)
    requires n <= MaxEntries(|a|) && |a| == |b|
    requires forall j :: 0 <= j < n ==> EntryName(a, j) == EntryName(b, j) && EntryInode(a, j) == EntryInode(b, j)
    ensures Names(a, n) == Names(b, n)
  {
    if n > 0 {
      NamesSame(a, b, n - 1);
    }
  }

  ghost predicate Named(m: map<seq<byte>, nat>, f: nat) {
    exists name :: name in m && m[name] == f
  }

  /** The map names exactly the inodes 2 to n + 1, and no two names share one. */
  lemma {:induction false} NamesAreInodes(block: seq<byte>, n: nat)
    requires EntriesOk(block, n)
    ensures forall name :: name in Names(block, n) ==> 2 <= Names(block, n)[name] < n + 2
    ensures forall x, y ::
              x in Names(block, n) && y in Names(block, n) && Names(block, n)[x] == Names(block, n)[y] ==> x == y
    ensures forall f :: 2 <= f < n + 2 ==> Named(Names(block, n), f)
  {
    hide EntryName, EntryInode;
    if n > 0 {
      NamesAreInodes(block, n - 1);
      var last := EntryName(block, n - 1);
      var m, m' := Names(block, n - 1), Names(block, n);
      NamesMissing(block, n - 1, last);
      assert m' == m[last := n + 1];
      forall f | 2 <= f < n + 2
        ensures Named(m', f)
      {
        if f == n + 1 {
          assert last in m' && m'[last] == f;
        } else {
          assert Named(m, f);
          var name :| name in m && m[name] == f;
          assert name in m' && m'[name] == f;
        }
      }
    }
  }

  lemma {:induction false} NamesAdded(block: seq<byte>, n: nat, name: seq<byte>, ino: word)
    requires n < MaxEntries(|block|) && |name| < NAME_LIMIT && NoNul(name)
    ensures Names(PutEntry(block, n, name, ino), n + 1) == Names(block, n)[name := ino]
  {
    PutEntryMeaning(block, n, name, ino);
    NamesSame(PutEntry(block, n, name, ino), block, n);
  }

  /** As many names as entries. */
  lemma {:induction false} NamesCount(block: seq<byte>, n: nat)
    requires EntriesOk(block, n)
    ensures |Names(block, n)| == n
  {
    hide EntryName, EntryInode;
    if n > 0 {
      NamesCount(block, n - 1);
      NamesMissing(block, n - 1, EntryName(block, n - 1));
    }
  }
}
