/**
  Directory entries of include/trav/directory.h: 62 bytes of name and a two-byte inode
  number, and the directory they make up as a finite map from names to inode numbers.
 */
module DirectoryEntry {
  import opened Params
  import opened Disk

  const FILENAME_SIZE: nat := 62
  const DIRECTORY_ENTRY_SIZE: nat := 64
  const DIRECTORY_ENTRIES_IN_BLOCK: nat := 16

  type Field = s: seq<Byte> | |s| == 62 witness seq(62, _ => 0)
  type Number = n: nat | n < NUM_OF_INODES
  // A C string without its terminator.
  type Name = s: seq<Byte> | forall i :: 0 <= i < |s| ==> s[i] != 0

  datatype Entry = Entry(field: Field, number: Number)

  function EntryBytes(e: Entry): (s: seq<Byte>)
    ensures |s| == 64
  {
    e.field + [e.number % 256, e.number / 256]
  }

  function EntryOf(s: seq<Byte>, at: nat): Entry
    requires at + DIRECTORY_ENTRY_SIZE <= |s|
  {
    var low: nat, high: nat := s[at + FILENAME_SIZE], s[at + FILENAME_SIZE + 1];
    Entry(s[at..at + FILENAME_SIZE], low + 256 * high)
  }

  lemma EntryRoundTrip(e: Entry, before: seq<Byte>, after: seq<Byte>)
    ensures EntryOf(before + EntryBytes(e) + after, |before|) == e
  {
    var s := before + EntryBytes(e) + after;
    assert s[|before|..|before| + 62] == e.field;
    assert s[|before| + 62] == EntryBytes(e)[62] && s[|before| + 63] == EntryBytes(e)[63];
  }

  lemma EntryBytesOf(s: seq<Byte>, at: nat)
    requires at + DIRECTORY_ENTRY_SIZE <= |s|
    ensures EntryBytes(EntryOf(s, at)) == s[at..at + DIRECTORY_ENTRY_SIZE]
  {
  }

  // ---------- names ----------

  // The C string that starts a byte sequence.
  function CString(s: seq<Byte>): Name {
    if s == [] || s[0] == 0 then [] else [s[0]] + CString(s[1..])
  }

  function NameOf(e: Entry): Name {
    CString(e.field)
  }

  // strcmp of the string at `at` with `name` gives 0.
  predicate StrEq(s: seq<Byte>, at: nat, name: Name) {
    at + |name| < |s| && s[at..at + |name|] == name && s[at + |name|] == 0
  }

  lemma {:induction false} CStringIs(s: seq<Byte>, name: Name)
    ensures CString(s) == name <==> |name| <= |s| && s[..|name|] == name && (|name| < |s| ==> s[|name|] == 0)
  {
    if s != [] && s[0] != 0 && name != [] {
      CStringIs(s[1..], name[1..]);
      assert name == [name[0]] + name[1..];
      if |name| <= |s| {
        assert s[..|name|] == [s[0]] + s[1..][..|name| - 1];
      }
    }
  }

  // A name that fits in its field with a terminator is compared with the entry's name alone.
  lemma StrEqIsName(s: seq<Byte>, at: nat, name: Name)
    requires at + DIRECTORY_ENTRY_SIZE <= |s| && |name| < FILENAME_SIZE
    ensures StrEq(s, at, name) <==> NameOf(EntryOf(s, at)) == name
  {
    var field := s[at..at + 62];
    CStringIs(field, name);
    assert field[..|name|] == s[at..at + |name|];
  }

  // What addDirectoryEntry stores is found again under its name if and only if the name leaves
  // room for the terminator, or the bytes behind the field happen to continue the string.
  lemma StoredNameFound(buffer: seq<Byte>, name: Name, number: Number, after: seq<Byte>)
    requires |buffer| >= FILENAME_SIZE && |buffer| > |name| && buffer[..|name|] == name && buffer[|name|] == 0
    ensures StrEq(EntryBytes(Entry(buffer[..FILENAME_SIZE], number)) + after, 0, name)
            <==> |name| < FILENAME_SIZE
                 || ((name + [0])[FILENAME_SIZE..] <= [number % 256, number / 256] + after)
  {
    var s := buffer[..62] + [number % 256, number / 256] + after;
    assert EntryBytes(Entry(buffer[..62], number)) + after == s;
    assert buffer[..|name|] == name;
    if |name| < 62 {
      assert s[0..|name|] == name;
    } else {
      var rest, tail := (name + [0])[62..], [number % 256, number / 256] + after;
      assert s == buffer[..62] + tail;
      assert name[..62] == buffer[..62];
      assert name + [0] == buffer[..62] + rest;
      assert StrEq(s, 0, name) <==> name + [0] <= s;
      assert name + [0] <= s <==> rest <= tail;
    }
  }

  // ---------- a directory as its entries ----------

  function Entries(bytes: seq<Byte>): (es: seq<Entry>)
    requires |bytes| % DIRECTORY_ENTRY_SIZE == 0
    ensures |es| == |bytes| / DIRECTORY_ENTRY_SIZE
  {
    seq(|bytes| / DIRECTORY_ENTRY_SIZE, i requires 0 <= i < |bytes| / DIRECTORY_ENTRY_SIZE => EntryOf(bytes, 64 * i))
  }

  lemma SameEntry(a: seq<Byte>, i: nat, b: seq<Byte>, j: nat)
    requires i + 64 <= |a| && j + 64 <= |b| && a[i..i + 64] == b[j..j + 64]
    ensures EntryOf(a, i) == EntryOf(b, j)
  {
    EntryBytesOf(a, i);
    EntryBytesOf(b, j);
    assert a[i..i + 64][..62] == a[i..i + 62] && b[j..j + 64][..62] == b[j..j + 62];
    assert a[i..i + 64][62] == a[i + 62] && a[i..i + 64][63] == a[i + 63];
    assert b[j..j + 64][62] == b[j + 62] && b[j..j + 64][63] == b[j + 63];
  }

  lemma EntriesAppend(bytes: seq<Byte>, e: Entry)
    requires |bytes| % 64 == 0
    ensures Entries(bytes + EntryBytes(e)) == Entries(bytes) + [e]
  {
    var more := bytes + EntryBytes(e);
    var got, wanted := Entries(more), Entries(bytes) + [e];
    hide EntryOf;
    forall i | 0 <= i < |wanted|
      ensures got[i] == wanted[i]
    {
      if i < |bytes| / 64 {
        SameEntry(bytes, 64 * i, more, 64 * i);
      } else {
        EntryRoundTrip(e, bytes, []);
        assert more + [] == more;
      }
    }
  }

  lemma EntriesPrefix(bytes: seq<Byte>, n: nat)
    requires |bytes| % 64 == 0 && 64 * n <= |bytes|
    ensures Entries(bytes[..64 * n]) == Entries(bytes)[..n]
  {
    var got, wanted := Entries(bytes[..64 * n]), Entries(bytes)[..n];
    hide EntryOf;
    forall i | 0 <= i < n
      ensures got[i] == wanted[i]
    {
      SameEntry(bytes, 64 * i, bytes[..64 * n], 64 * i);
    }
  }

  lemma EntriesSet(bytes: seq<Byte>, i: nat, e: Entry)
    requires |bytes| % 64 == 0 && 64 * i + 64 <= |bytes|
    ensures Entries(bytes[..64 * i] + EntryBytes(e) + bytes[64 * i + 64..]) == Entries(bytes)[i := e]
  {
    var a, b := bytes[..64 * i], bytes[64 * i + 64..];
    var changed := a + EntryBytes(e) + b;
    var got, wanted := Entries(changed), Entries(bytes)[i := e];
    hide EntryOf;
    forall j | 0 <= j < |wanted|
      ensures got[j] == wanted[j]
    {
      if j == i {
        EntryRoundTrip(e, a, b);
      } else {
        assert changed[64 * j..64 * j + 64] == bytes[64 * j..64 * j + 64];
        SameEntry(bytes, 64 * j, changed, 64 * j);
      }
    }
  }

  // ---------- the map ----------

  // The first entry called `name` from index i on, |es| if there is none.
  function First(es: seq<Entry>, i: nat, name: Name): (k: nat)
    requires i <= |es|
    ensures i <= k <= |es| && (k < |es| ==> NameOf(es[k]) == name)
    ensures forall j :: i <= j < k ==> NameOf(es[j]) != name
    decreases |es| - i
  {
    if i == |es| || NameOf(es[i]) == name then i else First(es, i + 1, name)
  }

  ghost predicate UniqueNames(es: seq<Entry>) {
    forall i, j :: 0 <= i < j < |es| ==> NameOf(es[i]) != NameOf(es[j])
  }

  ghost function Bindings(es: seq<Entry>): map<Name, Number>
  {
    if es == [] then map[] else Bindings(es[..|es| - 1])[NameOf(es[|es| - 1]) := es[|es| - 1].number]
  }

  lemma {:induction false} BindingsAre(es: seq<Entry>)
    requires UniqueNames(es)
    ensures forall name :: name in Bindings(es) <==> exists i :: 0 <= i < |es| && NameOf(es[i]) == name
    ensures forall i :: 0 <= i < |es| ==> NameOf(es[i]) in Bindings(es) && Bindings(es)[NameOf(es[i])] == es[i].number
  {
    if es != [] {
      var rest := es[..|es| - 1];
      BindingsAre(rest);
      forall name | name in Bindings(es)
        ensures exists i :: 0 <= i < |es| && NameOf(es[i]) == name
      {
        if name == NameOf(es[|es| - 1]) {
          assert NameOf(es[|es| - 1]) == name;
        } else {
          var i :| 0 <= i < |rest| && NameOf(rest[i]) == name;
          assert NameOf(es[i]) == name;
        }
      }
      forall i | 0 <= i < |es|
        ensures NameOf(es[i]) in Bindings(es) && Bindings(es)[NameOf(es[i])] == es[i].number
      {
        if i < |es| - 1 {
          assert rest[i] == es[i];
        }
      }
    }
  }

  // The search finds a name if and only if it is bound, and then its number.
  lemma SearchIsLookUp(es: seq<Entry>, name: Name)
    requires UniqueNames(es)
    ensures name in Bindings(es) <==> First(es, 0, name) < |es|
    ensures First(es, 0, name) < |es| ==> Bindings(es)[name] == es[First(es, 0, name)].number
  {
    BindingsAre(es);
  }

  lemma AppendBinds(es: seq<Entry>, e: Entry)
    requires UniqueNames(es) && NameOf(e) !in Bindings(es)
    ensures UniqueNames(es + [e]) && Bindings(es + [e]) == Bindings(es)[NameOf(e) := e.number]
  {
    AppendIsUnique(es, e);
    hide UniqueNames, NameOf;
    assert (es + [e])[..|es|] == es;
  }

  lemma AppendIsUnique(es: seq<Entry>, e: Entry)
    requires UniqueNames(es) && NameOf(e) !in Bindings(es)
    ensures UniqueNames(es + [e])
  {
    BindingsAre(es);
    hide Bindings, NameOf;
  }

  // The last entry moves into the place of entry i.
  function SwapRemoved(es: seq<Entry>, i: nat): seq<Entry>
    requires i < |es|
  {
    es[i := es[|es| - 1]][..|es| - 1]
  }

  lemma SwapUnbinds(es: seq<Entry>, i: nat)
    requires UniqueNames(es) && i < |es|
    ensures UniqueNames(SwapRemoved(es, i)) && Bindings(SwapRemoved(es, i)) == Bindings(es) - {NameOf(es[i])}
  {
    SwapMoves(es, i);
    BindsAt(es, i);
    hide *;
    var before, after, gone := Bindings(es), Bindings(SwapRemoved(es, i)), NameOf(es[i]);
    forall name
      ensures name in after <==> name in before && name != gone
      ensures name in after ==> name in before && after[name] == before[name]
    {
      if name in after {
        StaysBound(es, i, name);
      }
      if name in before && name != gone {
        KeepsBound(es, i, name);
      }
    }
    SameMap(after, before - {gone});
  }

  lemma SameMap<A, B>(m: map<A, B>, n: map<A, B>)
    requires forall x :: x in m <==> x in n
    requires forall x :: x in m ==> m[x] == n[x]
    ensures m == n
  {
  }

  lemma KeepsBound(es: seq<Entry>, i: nat, name: Name)
    requires UniqueNames(es) && i < |es| && name in Bindings(es) && name != NameOf(es[i])
    ensures name in Bindings(SwapRemoved(es, i))
  {
    SwapMoves(es, i);
    hide *;
    var k := BoundAt(es, name);
    BindsAt(SwapRemoved(es, i), if k == |es| - 1 then i else k);
  }

  lemma StaysBound(es: seq<Entry>, i: nat, name: Name)
    requires UniqueNames(es) && i < |es| && name in Bindings(SwapRemoved(es, i))
    ensures name in Bindings(es) && name != NameOf(es[i]) && Bindings(SwapRemoved(es, i))[name] == Bindings(es)[name]
  {
    SwapMoves(es, i);
    hide *;
    var k := BoundAt(SwapRemoved(es, i), name);
    BindsAt(es, if k == i then |es| - 1 else k);
    DistinctNames(es, i, if k == i then |es| - 1 else k);
  }

  lemma DistinctNames(es: seq<Entry>, i: nat, j: nat)
    requires UniqueNames(es) && i < |es| && j < |es| && i != j
    ensures NameOf(es[i]) != NameOf(es[j])
  {
    hide NameOf;
  }

  lemma BoundAt(es: seq<Entry>, name: Name) returns (k: nat)
    requires UniqueNames(es) && name in Bindings(es)
    ensures k < |es| && NameOf(es[k]) == name && Bindings(es)[name] == es[k].number
  {
    hide Bindings, NameOf;
    BindingsAre(es);
    k :| 0 <= k < |es| && NameOf(es[k]) == name;
  }

  lemma BindsAt(es: seq<Entry>, k: nat)
    requires UniqueNames(es) && k < |es|
    ensures NameOf(es[k]) in Bindings(es) && Bindings(es)[NameOf(es[k])] == es[k].number
  {
    hide Bindings, NameOf;
    BindingsAre(es);
  }

  lemma SwapMoves(es: seq<Entry>, i: nat)
    requires UniqueNames(es) && i < |es|
    ensures var after := SwapRemoved(es, i);
      && UniqueNames(after) && |after| == |es| - 1
      && forall k :: 0 <= k < |after| ==> after[k] == es[if k == i then |es| - 1 else k]
  {
  }

  // Without the move the last entry is lost instead.
  lemma NoSwapUnbinds(es: seq<Entry>, i: nat)
    requires UniqueNames(es) && i < |es|
    ensures Bindings(es[..|es| - 1]) == Bindings(es) - {NameOf(es[i])} <==> i == |es| - 1
  {
    SwapUnbinds(es, |es| - 1);
    assert SwapRemoved(es, |es| - 1) == es[..|es| - 1];
    BindingsAre(es);
  }
}
