/**
 * `ChecksumFlagSet` (checksum.go): the 32-bit FNV-1a hash of the names and
 * rendered values of the flags that were set, optionally narrowed by a filter,
 * returned as four big-endian bytes.
 */
module Checksum {
  import opened Wrappers
  import opened Registry

  /** A Go `byte`. */
  type Byte = x: int | 0 <= x < 0x100

  /** The FNV-1a 32-bit offset basis, 2166136261. */
  const OFFSET32: bv32 := 0x811c9dc5
  /** The FNV 32-bit prime, 16777619. */
  const PRIME32: bv32 := 0x0100_0193

  /** One FNV-1a round: xor the byte in, then multiply by the prime (modulo 2^32). */
  function Step(h: bv32, b: Byte): bv32 {
    (h ^ b as bv32) * PRIME32
  }

  /** FNV-1a over `data` from state `h`, one round per byte. */
  function Fnv(h: bv32, data: seq<Byte>): (r: bv32)
    ensures data == [] ==> r == h
    decreases |data|
  {
    if data == [] then h else Fnv(Step(h, data[0]), data[1..])
  }

  /** Hashing a concatenation continues from the state the first part leaves. */
  lemma {:induction false} FnvAppend(h: bv32, a: seq<Byte>, b: seq<Byte>)
    ensures Fnv(h, a + b) == Fnv(Fnv(h, a), b)
    decreases |a|
  {
    if a == [] {
      assert a + b == b;
    } else {
      assert (a + b)[0] == a[0] && (a + b)[1..] == a[1..] + b;
      FnvAppend(Step(h, a[0]), a[1..], b);
    }
  }

  /** The UTF-8 encoding of one character, which is what Go's `[]byte(s)` holds. */
  function Utf8Char(c: char): (bytes: seq<Byte>)
    ensures 1 <= |bytes| <= 4
    ensures (c as int < 0x80) <==> |bytes| == 1
    ensures c as int < 0x80 ==> bytes == [c as int]
  {
    var n := c as int;
    if n < 0x80 then [n]
    else if n < 0x800 then [0xC0 + n / 0x40, 0x80 + n % 0x40]
    else if n < 0x1_0000 then [0xE0 + n / 0x1000, 0x80 + n / 0x40 % 0x40, 0x80 + n % 0x40]
    else [0xF0 + n / 0x4_0000, 0x80 + n / 0x1000 % 0x40, 0x80 + n / 0x40 % 0x40, 0x80 + n % 0x40]
  }

  /** The bytes of a Go string. */
  function Utf8(s: string): (bytes: seq<Byte>)
    ensures |bytes| >= |s|
    decreases |s|
  {
    if s == [] then [] else Utf8(s[..|s| - 1]) + Utf8Char(s[|s| - 1])
  }

  /** The bytes of a concatenation are the concatenated bytes. */
  lemma {:induction false} Utf8Append(a: string, b: string)
    ensures Utf8(a + b) == Utf8(a) + Utf8(b)
    decreases |b|
  {
    if b == [] {
      assert a + b == a;
    } else {
      var b', last := b[..|b| - 1], b[|b| - 1];
      var x, y, c := Utf8(a), Utf8(b'), Utf8Char(last);
      assert Utf8(a + b) == Utf8(a + b') + c by {
        assert (a + b)[..|a + b| - 1] == a + b' && (a + b)[|a + b| - 1] == last;
      }
      assert Utf8(a + b') == x + y by {
        Utf8Append(a, b');
      }
      assert x + y + c == x + (y + c);
    }
  }

  /** Whether a visited flag is hashed: a missing filter includes every visited flag. */
  predicate Included(filter: Option<Flag -> bool>, f: Flag) {
    filter.None? || filter.value(f)
  }

  /**
   * The strings written into the hash for the visited flags: each included
   * flag's name, then its value.
   */
  function Pieces(visited: seq<Flag>, filter: Option<Flag -> bool>): (pieces: seq<string>)
    ensures |pieces| <= 2 * |visited|
    decreases |visited|
  {
    if visited == [] then []
    else
      var f := visited[|visited| - 1];
      Pieces(visited[..|visited| - 1], filter) + (if Included(filter, f) then [f.name, f.value] else [])
  }

  /** Pieces distributes over concatenation: flags are hashed in visiting order. */
  lemma {:induction false} PiecesAppend(a: seq<Flag>, b: seq<Flag>, filter: Option<Flag -> bool>)
    ensures Pieces(a + b, filter) == Pieces(a, filter) + Pieces(b, filter)
    decreases |b|
  {
    if b == [] {
      assert a + b == a;
    } else {
      var b' := b[..|b| - 1];
      assert (a + b)[..|a + b| - 1] == a + b' && (a + b)[|a + b| - 1] == b[|b| - 1];
      PiecesAppend(a, b', filter);
    }
  }

  /** A flag the filter rejects adds nothing, wherever it is visited. */
  lemma FilteredOut(a: seq<Flag>, f: Flag, b: seq<Flag>, filter: Option<Flag -> bool>)
    requires !Included(filter, f)
    ensures Pieces(a + [f] + b, filter) == Pieces(a + b, filter)
  {
    PiecesAppend(a + [f], b, filter);
    PiecesAppend(a, [f], filter);
    PiecesAppend(a, b, filter);
    assert [f][..0] == [];
  }

  /** The pieces written one after another, with nothing between them. */
  function Concat(pieces: seq<string>): (text: string)
    ensures pieces == [] ==> text == []
    decreases |pieces|
  {
    if pieces == [] then [] else Concat(pieces[..|pieces| - 1]) + pieces[|pieces| - 1]
  }

  lemma ConcatPair(pieces: seq<string>, x: string, y: string)
    ensures Concat(pieces + [x, y]) == Concat(pieces) + x + y
  {
    assert (pieces + [x, y])[..|pieces| + 1] == pieces + [x];
    assert (pieces + [x])[..|pieces|] == pieces;
  }

  /** The hash as four bytes, most significant first (`Sum(nil)` of a 32-bit hash). */
  function BigEndian(n: nat): (bytes: seq<Byte>)
    requires n < 0x1_0000_0000
    ensures |bytes| == 4
    ensures ((bytes[0] as int * 0x100 + bytes[1]) * 0x100 + bytes[2]) * 0x100 + bytes[3] == n
  {
    var low := n / 0x100;
    var high := low / 0x100;
    [high / 0x100, high % 0x100, low % 0x100, n % 0x100]
  }

  /** The checksum of a text: FNV-1a from the offset basis over its bytes, as four bytes. */
  function Sum(text: string): (sum: seq<Byte>)
    ensures |sum| == 4
  {
    BigEndian(Fnv(OFFSET32, Utf8(text)) as int)
  }

  /** `hash.Write`: feeds `data` into the running hash, one byte at a time. */
  method Write(h: bv32, data: seq<Byte>) returns (next: bv32)
    ensures next == Fnv(h, data)
  {
    next := h;
    var i := 0;
    while i < |data|
      invariant 0 <= i <= |data|
      invariant Fnv(h, data) == Fnv(next, data[i..])
    {
      assert data[i..][0] == data[i] && data[i..][1..] == data[i + 1..];
      next := Step(next, data[i]);
      i := i + 1;
    }
  }

  /** The body of the visit: an included flag's name and then its value are written into the hash. */
  method WriteFlag(h: bv32, f: Flag, filter: Option<Flag -> bool>) returns (next: bv32)
    ensures Included(filter, f) ==> next == Fnv(Fnv(h, Utf8(f.name)), Utf8(f.value))
    ensures !Included(filter, f) ==> next == h
  {
    next := h;
    if Included(filter, f) {
      next := Write(next, Utf8(f.name));
      next := Write(next, Utf8(f.value));
    }
  }

  /**
   * `ChecksumFlagSet`: visits the set flags in the registry's order and writes
   * each included one's name and then its value into the hash.
   */
  method ChecksumFlagSet(flagSet: FlagSet, filter: Option<Flag -> bool>) returns (sum: seq<Byte>)
    requires flagSet.Valid()
    ensures sum == Sum(Concat(Pieces(ChangedOnly(flagSet.All()), filter)))
  {
    var visited := ChangedOnly(flagSet.All());
    var h := OFFSET32;
    var i := 0;
    while i < |visited|
      invariant 0 <= i <= |visited|
      invariant h == Fnv(OFFSET32, Utf8(Concat(Pieces(visited[..i], filter))))
    {
      ghost var before := h;
      h := WriteFlag(h, visited[i], filter);
      HashExtend(visited, i, filter, before, h);
      i := i + 1;
    }
    assert visited[..i] == visited;
    sum := BigEndian(h as int);
  }

  /** A loop pass that hashes what `HashStep` says continues the hash over one more visited flag. */
  lemma HashExtend(visited: seq<Flag>, i: nat, filter: Option<Flag -> bool>, before: bv32, after: bv32)
    requires i < |visited|
    requires before == Fnv(OFFSET32, Utf8(Concat(Pieces(visited[..i], filter))))
    requires Included(filter, visited[i]) ==> after == Fnv(Fnv(before, Utf8(visited[i].name)), Utf8(visited[i].value))
    requires !Included(filter, visited[i]) ==> after == before
    ensures after == Fnv(OFFSET32, Utf8(Concat(Pieces(visited[..i + 1], filter))))
  {
    HashStep(visited, i, filter);
  }

  /** One visited flag: if included, its name and value continue the hash; otherwise nothing changes. */
  lemma HashStep(visited: seq<Flag>, i: nat, filter: Option<Flag -> bool>)
    requires i < |visited|
    ensures var f := visited[i];
      var before := Fnv(OFFSET32, Utf8(Concat(Pieces(visited[..i], filter))));
      var after := Fnv(OFFSET32, Utf8(Concat(Pieces(visited[..i + 1], filter))));
      && (Included(filter, f) ==> Fnv(Fnv(before, Utf8(f.name)), Utf8(f.value)) == after)
      && (!Included(filter, f) ==> before == after)
  {
    var f := visited[i];
    var pieces := Pieces(visited[..i], filter);
    assert Pieces(visited[..i + 1], filter)
        == pieces + (if Included(filter, f) then [f.name, f.value] else []) by {
      assert visited[..i + 1][..i] == visited[..i] && visited[..i + 1][i] == f;
    }
    if Included(filter, f) {
      ConcatPair(pieces, f.name, f.value);
      HashPieces(Concat(pieces), f.name, f.value);
    } else {
      assert pieces + [] == pieces;
    }
  }

  /** Writing a name and then a value continues the hash of the text before them. */
  lemma HashPieces(before: string, name: string, value: string)
    ensures Fnv(Fnv(Fnv(OFFSET32, Utf8(before)), Utf8(name)), Utf8(value))
         == Fnv(OFFSET32, Utf8(before + name + value))
  {
    Utf8Append(before, name);
    Utf8Append(before + name, value);
    FnvAppend(OFFSET32, Utf8(before), Utf8(name));
    FnvAppend(OFFSET32, Utf8(before) + Utf8(name), Utf8(value));
  }

  /** With nothing to hash the checksum is the offset basis, 0x811c9dc5, as bytes. */
  lemma EmptyChecksum(visited: seq<Flag>, filter: Option<Flag -> bool>)
    requires forall i :: 0 <= i < |visited| ==> !Included(filter, visited[i])
    ensures Sum(Concat(Pieces(visited, filter))) == [0x81, 0x1c, 0x9d, 0xc5]
  {
    NothingIncluded(visited, filter);
  }

  lemma {:induction false} NothingIncluded(visited: seq<Flag>, filter: Option<Flag -> bool>)
    requires forall i :: 0 <= i < |visited| ==> !Included(filter, visited[i])
    ensures Pieces(visited, filter) == []
    decreases |visited|
  {
    if visited != [] {
      NothingIncluded(visited[..|visited| - 1], filter);
    }
  }

  /**
   * With no separator between name and value, moving characters across that
   * boundary leaves the checksum unchanged: flag "ab" set to "c" hashes like
   * flag "a" set to "bc".
   */
  lemma BoundaryNotHashed(f: Flag, g: Flag)
    requires f.name + f.value == g.name + g.value
    ensures Sum(Concat(Pieces([f], None))) == Sum(Concat(Pieces([g], None)))
  {
    HashedAlone(f);
    HashedAlone(g);
  }

  /** A single visited flag, with no filter, is hashed as its name followed by its value. */
  lemma HashedAlone(f: Flag)
    ensures Concat(Pieces([f], None)) == f.name + f.value
  {
    assert Pieces([f], None) == [f.name, f.value] by {
      assert [f][..0] == [];
      assert [] + [f.name, f.value] == [f.name, f.value];
    }
    ConcatPair([], f.name, f.value);
    assert [] + f.name == f.name;
  }
}
