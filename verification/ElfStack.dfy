/**
 * The first contents of a user stack: argument count, vectors, strings and program header
 * table, as the ELF loader writes them and as the new program reads them.
 */
module ElfStack {
  const WORD := 8
  const AUX := 16
  const HEAD := 32
  const AT_NULL := 0
  const AT_PHDR := 3
  const TWO_64 := 0x1_0000_0000_0000_0000

  newtype byte = x: int | 0 <= x < 256

  type Bytes = seq<byte>

  /** A C string without its terminator. */
  predicate IsString(s: Bytes) {
    0 !in s
  }

  /** An entry of the auxiliary vector; its type is not AT_NULL. */
  datatype Aux = Aux(kind: nat, value: nat)

  // -------------------------------------------------------------------- words in memory

  function LittleEndian(w: nat, n: nat): (r: Bytes)
    ensures |r| == n
  {
    if n == 0 then [] else [(w % 256) as byte] + LittleEndian(w / 256, n - 1)
  }

  function Word(w: nat): (r: Bytes)
    ensures |r| == WORD
  {
    LittleEndian(w, WORD)
  }

  function Value(s: Bytes): nat {
    if s == [] then 0 else s[0] as nat + 256 * Value(s[1..])
  }

  function Power(n: nat): nat {
    if n == 0 then 1 else 256 * Power(n - 1)
  }

  lemma {:induction false} ValueOfBytes(w: nat, n: nat)
    requires w < Power(n)
    ensures Value(LittleEndian(w, n)) == w
    decreases n
  {
    if n > 0 {
      ValueOfBytes(w / 256, n - 1);
      assert LittleEndian(w, n)[1..] == LittleEndian(w / 256, n - 1);
    }
  }

  lemma ValueOfWord(w: nat)
    requires w < TWO_64
    ensures Value(Word(w)) == w
  {
    assert Power(8) == 256 * (256 * (256 * (256 * (256 * (256 * (256 * (256 * Power(0))))))));
    ValueOfBytes(w, 8);
  }

  // ------------------------------------------------------------------ what is written

  /** The strings one after the other, each with its terminator. */
  function Strings(v: seq<Bytes>): Bytes {
    if v == [] then [] else v[0] + [0] + Strings(v[1..])
  }

  /** Their addresses, when the first one is at `at`. */
  function Pointers(v: seq<Bytes>, at: nat): Bytes {
    if v == [] then [] else Word(at) + Pointers(v[1..], at + |v[0]| + 1)
  }

  /** The auxiliary vector, with the program header table at `at`. */
  function Entries(v: seq<Aux>, at: nat): Bytes {
    if v == [] then []
    else Word(v[0].kind) + Word(if v[0].kind == AT_PHDR then at else v[0].value) + Entries(v[1..], at)
  }

  function Headers(v: seq<Aux>): nat {
    if v == [] then 0 else (if v[0].kind == AT_PHDR then 1 else 0) + Headers(v[1..])
  }

  /** What is set aside for header tables of `size` bytes. */
  function Room(v: seq<Aux>, size: nat): nat {
    Headers(v) * size
  }

  /** The table of the last entry that names one; `pht` says what lies at a kernel address. */
  function Tables(v: seq<Aux>, pht: nat -> Bytes): Bytes {
    if v == [] then [] else
    var n := |v| - 1;
    if v[n].kind == AT_PHDR then pht(v[n].value) else Tables(v[..n], pht)
  }

  lemma {:induction false} TablesSize(v: seq<Aux>, pht: nat -> Bytes, size: nat)
    requires forall p: nat :: |pht(p)| == size
    ensures |Tables(v, pht)| == if Headers(v) == 0 then 0 else size
  {
    if v != [] {
      var n := |v| - 1;
      TablesSize(v[..n], pht, size);
      assert v == v[..n] + [v[n]];
      EntriesAppend(v[..n], [v[n]], 0);
      OneEntry(v[n], 0);
    }
  }

  lemma Regroup(a: Bytes, b: Bytes, c: Bytes)
    ensures a + b + c == a + (b + c)
  {
  }

  lemma {:induction false} StringsAppend(v: seq<Bytes>, w: seq<Bytes>)
    ensures Strings(v + w) == Strings(v) + Strings(w)
  {
    if v == [] {
      assert v + w == w;
    } else {
      StringsAppend(v[1..], w);
      assert (v + w)[1..] == v[1..] + w && (v + w)[0] == v[0];
      Regroup(v[0] + [0], Strings(v[1..]), Strings(w));
    }
  }

  lemma {:induction false} PointersSize(v: seq<Bytes>, at: nat)
    ensures |Pointers(v, at)| == WORD * |v|
    decreases |v|
  {
    if v != [] {
      PointersSize(v[1..], at + |v[0]| + 1);
    }
  }

  lemma StringsFirst(v: seq<Bytes>)
    requires v != []
    ensures |Strings(v)| == |v[0]| + 1 + |Strings(v[1..])|
  {
  }

  lemma StringsNone()
    ensures Strings([]) == []
  {
  }

  lemma {:induction false} PointersAppend(v: seq<Bytes>, w: seq<Bytes>, at: nat)
    ensures Pointers(v + w, at) == Pointers(v, at) + Pointers(w, at + |Strings(v)|)
    decreases |v|
  {
    hide Word, Strings;
    if v == [] {
      assert v + w == w;
      StringsNone();
    } else {
      StringsFirst(v);
      PointersAppend(v[1..], w, at + |v[0]| + 1);
      assert (v + w)[1..] == v[1..] + w && (v + w)[0] == v[0];
      Regroup(Word(at), Pointers(v[1..], at + |v[0]| + 1), Pointers(w, at + |Strings(v)|));
    }
  }

  lemma {:induction false} EntriesSize(v: seq<Aux>, at: nat)
    ensures |Entries(v, at)| == AUX * |v|
  {
    if v != [] {
      EntriesSize(v[1..], at);
    }
  }

  lemma {:induction false} EntriesAppend(v: seq<Aux>, w: seq<Aux>, at: nat)
    ensures Entries(v + w, at) == Entries(v, at) + Entries(w, at) && Headers(v + w) == Headers(v) + Headers(w)
  {
    if v == [] {
      assert v + w == w;
    } else {
      EntriesAppend(v[1..], w, at);
      assert (v + w)[1..] == v[1..] + w && (v + w)[0] == v[0];
      Regroup(Word(v[0].kind) + Word(if v[0].kind == AT_PHDR then at else v[0].value), Entries(v[1..], at),
              Entries(w, at));
    }
  }

  // ------------------------------------------------------------- sizes and the whole image

  function VectorSize(argc: nat, envc: nat, auxc: nat): nat {
    (argc + 1 + envc + 1) * WORD + (auxc + 1) * AUX
  }

  function ArgSize(argv: seq<Bytes>, envp: seq<Bytes>, auxv: seq<Aux>, phtsize: nat): nat {
    HEAD + VectorSize(|argv|, |envp|, |auxv|) + |Strings(argv)| + |Strings(envp)| + Headers(auxv) * phtsize
  }

  /** The argument count and the addresses of the three vectors. */
  function Head(low: nat, argc: nat, envc: nat): Bytes {
    var vec := low + HEAD;
    Word(argc) + Word(vec) + Word(vec + (argc + 1) * WORD) + Word(vec + (argc + 1 + envc + 1) * WORD)
  }

  /** Everything that stands before the strings, up to the type of the last auxiliary entry. */
  function Vectors(low: nat, argv: seq<Bytes>, envp: seq<Bytes>, auxv: seq<Aux>): Bytes {
    var str := low + HEAD + VectorSize(|argv|, |envp|, |auxv|);
    Head(low, |argv|, |envp|)
    + Pointers(argv, str) + Word(0) + Pointers(envp, str + |Strings(argv)|) + Word(0)
    + Entries(auxv, str + |Strings(argv)| + |Strings(envp)|) + Word(AT_NULL)
  }

  function Data(argv: seq<Bytes>, envp: seq<Bytes>, auxv: seq<Aux>, pht: nat -> Bytes): Bytes {
    Strings(argv) + Strings(envp) + Tables(auxv, pht)
  }

  /** The bytes in front, bytes that nobody wrote, the data, and what is left of the buffer. */
  function Filled(start: Bytes, at: nat, front: Bytes, data: Bytes): Bytes
    requires |front| <= at && at + |data| <= |start|
  {
    front + start[|front|..at] + data + start[at + |data|..]
  }

  /**
   * The pieces fit into the computed size, and fill it if and only if at most one header table is named or it is empty.
   */
  lemma Tiles(low: nat, argv: seq<Bytes>, envp: seq<Bytes>, auxv: seq<Aux>, pht: nat -> Bytes, phtsize: nat)
    requires forall p: nat :: |pht(p)| == phtsize
    ensures |Vectors(low, argv, envp, auxv)| + WORD == HEAD + VectorSize(|argv|, |envp|, |auxv|)
    ensures HEAD + VectorSize(|argv|, |envp|, |auxv|) + |Data(argv, envp, auxv, pht)|
      <= ArgSize(argv, envp, auxv, phtsize)
    ensures HEAD + VectorSize(|argv|, |envp|, |auxv|) + |Data(argv, envp, auxv, pht)|
      == ArgSize(argv, envp, auxv, phtsize)
      <==> Headers(auxv) <= 1 || phtsize == 0
  {
    hide Strings, Pointers, Entries, Headers, Word, Tables;
    VectorsSize(low, argv, envp, auxv);
    TablesSize(auxv, pht, phtsize);
    if Headers(auxv) >= 2 {
      Twice(Headers(auxv), phtsize);
    }
  }

  /** With two entries for header tables, room for one table stays unused. */
  lemma TwoTables(low: nat, a: nat, b: nat, pht: nat -> Bytes, phtsize: nat)
    requires (forall p: nat :: |pht(p)| == phtsize) && phtsize > 0
    ensures var auxv := [Aux(AT_PHDR, a), Aux(AT_PHDR, b)];
      && Tables(auxv, pht) == pht(b)
      && HEAD + VectorSize(0, 0, |auxv|) + |Data([], [], auxv, pht)| + phtsize == ArgSize([], [], auxv, phtsize)
  {
    var auxv := [Aux(AT_PHDR, a), Aux(AT_PHDR, b)];
    assert auxv[1..] == [Aux(AT_PHDR, b)] && auxv[1..][1..] == [];
    assert Headers(auxv[1..]) == 1;
    assert Headers(auxv) == 2;
  }

  lemma VectorsSize(low: nat, argv: seq<Bytes>, envp: seq<Bytes>, auxv: seq<Aux>)
    ensures |Vectors(low, argv, envp, auxv)| + WORD == HEAD + VectorSize(|argv|, |envp|, |auxv|)
  {
    hide Strings, Pointers, Entries, Word;
    var str := low + HEAD + VectorSize(|argv|, |envp|, |auxv|);
    PointersSize(argv, str);
    PointersSize(envp, str + |Strings(argv)|);
    EntriesSize(auxv, str + |Strings(argv)| + |Strings(envp)|);
  }

  lemma Twice(n: nat, size: nat)
    requires n >= 2
    ensures n * size >= size && (n * size == size <==> size == 0)
  {
    if size > 0 {
      assert n * size >= 2 * size;
    }
  }

  lemma FrontGrows(start: Bytes, at: nat, front: Bytes, data: Bytes, t: Bytes)
    requires |front| + |t| <= at && at + |data| <= |start|
    ensures var s := Filled(start, at, front, data);
      |s| == |start| && s[..|front|] + t + s[|front| + |t|..] == Filled(start, at, front + t, data)
  {
  }

  lemma DataGrows(start: Bytes, at: nat, front: Bytes, data: Bytes, t: Bytes)
    requires |front| <= at && at + |data| + |t| <= |start|
    ensures var s := Filled(start, at, front, data);
      |s| == |start| && s[..at + |data|] + t + s[at + |data| + |t|..] == Filled(start, at, front, data + t)
  {
  }

  /** The end of the data is written once more, or for the first time. */
  lemma DataChanges(start: Bytes, at: nat, front: Bytes, data: Bytes, t: Bytes, u: Bytes)
    requires |front| <= at && at + |data| + |u| <= |start| && (t == [] || |t| == |u|)
    ensures var s := Filled(start, at, front, data + t);
      |s| == |start| && s[..at + |data|] + u + s[at + |data| + |u|..] == Filled(start, at, front, data + u)
  {
    if t == [] {
      assert data + t == data;
      DataGrows(start, at, front, data, u);
    }
  }

  /** The end of what stands in front is written once more. */
  lemma FrontChanges(start: Bytes, at: nat, front: Bytes, data: Bytes, t: Bytes, u: Bytes)
    requires |front| + |t| <= at && at + |data| <= |start| && |u| == |t|
    ensures var s := Filled(start, at, front + t, data);
      |s| == |start| && s[..|front|] + u + s[|front| + |u|..] == Filled(start, at, front + u, data)
  {
  }

  method Put(buf: array<byte>, at: nat, t: Bytes)
    requires at + |t| <= buf.Length
    modifies buf
    ensures buf[..] == old(buf[..at]) + t + old(buf[at + |t|..])
  {
    var i := 0;
    while i < |t|
      invariant 0 <= i <= |t|
      invariant forall k :: 0 <= k < buf.Length ==> buf[k] == if at <= k < at + i then t[k - at] else old(buf[k])
    {
      buf[at + i] := t[i];
      i := i + 1;
    }
  }

  /** The sizes of the strings, the vectors and, for every entry that names it, the header table. */
  method CalcArgSize(argv: seq<Bytes>, envp: seq<Bytes>, auxv: seq<Aux>, phtsize: nat)
    returns (size: nat, argc: nat, envc: nat, auxc: nat)
    ensures size == ArgSize(argv, envp, auxv, phtsize) && argc == |argv| && envc == |envp| && auxc == |auxv|
  {
    size, argc := AddStrings(0, argv);
    size, envc := AddStrings(size, envp);
    auxc := 0;
    ghost var before := size;
    while auxc < |auxv|
      invariant 0 <= auxc <= |auxv| && size == before + Headers(auxv[..auxc]) * phtsize
    {
      EntriesAppend(auxv[..auxc], [auxv[auxc]], 0);
      assert auxv[..auxc + 1] == auxv[..auxc] + [auxv[auxc]];
      assert Headers([auxv[auxc]]) == if auxv[auxc].kind == AT_PHDR then 1 else 0;
      if auxv[auxc].kind == AT_PHDR {
        OneMore(Headers(auxv[..auxc]), phtsize);
        size := size + phtsize;
      }
      auxc := auxc + 1;
    }
    assert auxv[..auxc] == auxv;
    size := size + (auxc + 1) * AUX;
    size := size + WORD;
    size := size + 3 * WORD;
  }

  lemma OneMore(n: nat, d: nat)
    ensures (n + 1) * d == n * d + d
  {
  }

  method AddStrings(size: nat, v: seq<Bytes>) returns (total: nat, n: nat)
    ensures n == |v| && total == size + |Strings(v)| + (|v| + 1) * WORD
  {
    total, n := size, 0;
    while n < |v|
      invariant 0 <= n <= |v| && total == size + |Strings(v[..n])|
    {
      StringsAppend(v[..n], [v[n]]);
      assert v[..n + 1] == v[..n] + [v[n]];
      assert Strings([v[n]]) == v[n] + [0] + [];
      total := total + |v[n]| + 1;
      n := n + 1;
    }
    assert v[..n] == v;
    total := total + (n + 1) * WORD;
  }

  /** One vector: every string behind those that are there, its address into the vector, and a null at the end. */
  method CopyStrings(buf: array<byte>, low: nat, v: seq<Bytes>, vec0: nat, str0: nat, ghost start: Bytes, ghost at: nat,
                     ghost front: Bytes, ghost data: Bytes)
    returns (vec: nat, str: nat)
    requires |front| == vec0 && vec0 + (|v| + 1) * WORD <= at && at + |data| == str0 && str0 + |Strings(v)| <= |start|
    requires buf[..] == Filled(start, at, front, data)
    modifies buf
    ensures vec == vec0 + (|v| + 1) * WORD && str == str0 + |Strings(v)|
    ensures |front + Pointers(v, low + str0) + Word(0)| == vec
    ensures buf[..] == Filled(start, at, front + Pointers(v, low + str0) + Word(0), data + Strings(v))
  {
    hide Word, Filled, Strings, Pointers;
    vec, str := vec0, str0;
    var i := 0;
    ghost var f, d := front, data;
    CopyNone(v, low + str0, front, data);
    while i < |v|
      invariant 0 <= i <= |v| && vec == vec0 + i * WORD == |f| && str == at + |d| && at + |d| <= |start|
      invariant f == front + Pointers(v[..i], low + str0) && d == data + Strings(v[..i])
      invariant buf[..] == Filled(start, at, f, d)
    {
      CopyStep(v, i, low + str0, front, data);
      PutData(buf, str, v[i] + [0], start, at, f, d);
      d := d + (v[i] + [0]);
      PutFront(buf, vec, Word(low + str), start, at, f, d);
      f := f + Word(low + str);
      vec, str, i := vec + WORD, str + |v[i]| + 1, i + 1;
    }
    assert v[..i] == v;
    PutFront(buf, vec, Word(0), start, at, f, d);
    vec := vec + WORD;
  }

  method PutFront(buf: array<byte>, vec: nat, t: Bytes, ghost start: Bytes, ghost at: nat, ghost front: Bytes,
                  ghost data: Bytes)
    requires |front| + |t| <= at && at + |data| <= |start| && vec == |front|
    requires buf[..] == Filled(start, at, front, data)
    modifies buf
    ensures buf[..] == Filled(start, at, front + t, data)
  {
    FrontGrows(start, at, front, data, t);
    Put(buf, vec, t);
  }

  method PutData(buf: array<byte>, str: nat, t: Bytes, ghost start: Bytes, ghost at: nat, ghost front: Bytes,
                 ghost data: Bytes)
    requires |front| <= at && at + |data| + |t| <= |start| && str == at + |data|
    requires buf[..] == Filled(start, at, front, data)
    modifies buf
    ensures buf[..] == Filled(start, at, front, data + t)
  {
    DataGrows(start, at, front, data, t);
    Put(buf, str, t);
  }

  lemma CopyNone(v: seq<Bytes>, at: nat, front: Bytes, data: Bytes)
    ensures front == front + Pointers(v[..0], at) && data == data + Strings(v[..0])
  {
  }

  lemma CopyStep(v: seq<Bytes>, i: nat, at: nat, front: Bytes, data: Bytes)
    requires i < |v|
    ensures data + Strings(v[..i + 1]) == data + Strings(v[..i]) + (v[i] + [0])
    ensures front + Pointers(v[..i + 1], at) == front + Pointers(v[..i], at) + Word(at + |Strings(v[..i])|)
    ensures |Strings(v[..i + 1])| <= |Strings(v)| && |Strings(v[..i + 1])| == |Strings(v[..i])| + |v[i]| + 1
  {
    hide Strings, Pointers, Word;
    assert v[..i + 1] == v[..i] + [v[i]] && v == v[..i + 1] + v[i + 1..];
    StringsAppend(v[..i], [v[i]]);
    StringsAppend(v[..i + 1], v[i + 1..]);
    PointersAppend(v[..i], [v[i]], at);
    OneString(v[i], at + |Strings(v[..i])|);
  }

  lemma OneString(s: Bytes, at: nat)
    ensures Strings([s]) == s + [0] && Pointers([s], at) == Word(at)
  {
    assert [s][1..] == [];
  }

  /**
   * The auxiliary vector; every entry that names a header table gets the same new address, and the last table stays.
   */
  method CopyAux(buf: array<byte>, low: nat, v: seq<Aux>, pht: nat -> Bytes, ghost phtsize: nat, vec0: nat, str: nat,
                 ghost start: Bytes, ghost at: nat, ghost front: Bytes, ghost data: Bytes)
    requires (forall p: nat :: |pht(p)| == phtsize) && at + |data| == str && str + Room(v, phtsize) <= |start|
    requires |front| == vec0 && vec0 + (|v| + 1) * AUX <= at
    requires buf[..] == Filled(start, at, front, data)
    modifies buf
    ensures |front + Entries(v, low + str) + Word(AT_NULL)| + WORD == vec0 + (|v| + 1) * AUX
    ensures at + |data + Tables(v, pht)| <= |start|
    ensures buf[..] == Filled(start, at, front + Entries(v, low + str) + Word(AT_NULL), data + Tables(v, pht))
  {
    hide Word, Filled, Entries, Headers, Tables, Room;
    var vec, i := vec0, 0;
    ghost var f, t := front, [];
    AuxNone(v, pht, low + str, front, data);
    while i < |v|
      invariant 0 <= i <= |v| && vec == vec0 + i * AUX == |f| && at + |data| + |t| <= |start|
      invariant (t == [] || |t| == phtsize)
      invariant f == front + Entries(v[..i], low + str) && t == Tables(v[..i], pht)
      invariant buf[..] == Filled(start, at, f, data + t)
    {
      AuxStep(v, i, pht, low + str, front, phtsize);
      CopyEntry(buf, vec, str, v[i], low + str, pht(v[i].value), start, at, f, data, t);
      t := if v[i].kind == AT_PHDR then pht(v[i].value) else t;
      f := f + (Word(v[i].kind) + Word(if v[i].kind == AT_PHDR then low + str else v[i].value));
      vec, i := vec + AUX, i + 1;
    }
    assert v[..i] == v;
    PutFront(buf, vec, Word(AT_NULL), start, at, f, data + t);
  }

  /** One entry; if it names a header table, that is copied to `str` and the entry is made to point to it. */
  method CopyEntry(buf: array<byte>, vec: nat, str: nat, a: Aux, pointer: nat, table: Bytes,
                   ghost start: Bytes, ghost at: nat, ghost front: Bytes, ghost data: Bytes, ghost t: Bytes)
    requires |front| + AUX <= at && at + |data| + |t| <= |start| && (t == [] || |t| == |table|)
    requires vec == |front| && str == at + |data| && (a.kind == AT_PHDR ==> str + |table| <= |start|)
    requires buf[..] == Filled(start, at, front, data + t)
    modifies buf
    ensures buf[..] == if a.kind == AT_PHDR then Filled(start, at, front + (Word(a.kind) + Word(pointer)), data + table)
                       else Filled(start, at, front + (Word(a.kind) + Word(a.value)), data + t)
  {
    hide Word, Filled;
    PutEntry(buf, vec, a, start, at, front, data + t);
    if a.kind == AT_PHDR {
      PutTable(buf, str, table, start, at, front + (Word(a.kind) + Word(a.value)), data, t);
      Repoint(buf, vec, a, pointer, start, at, front, data + table);
    }
  }

  method PutTable(buf: array<byte>, str: nat, u: Bytes, ghost start: Bytes, ghost at: nat, ghost front: Bytes,
                  ghost data: Bytes, ghost t: Bytes)
    requires |front| <= at && at + |data| + |u| <= |start| && at + |data| + |t| <= |start| && (t == [] || |t| == |u|)
    requires str == at + |data| && buf[..] == Filled(start, at, front, data + t)
    modifies buf
    ensures buf[..] == Filled(start, at, front, data + u)
  {
    DataChanges(start, at, front, data, t, u);
    Put(buf, str, u);
  }

  method PutEntry(buf: array<byte>, vec: nat, a: Aux, ghost start: Bytes, ghost at: nat, ghost front: Bytes,
                  ghost data: Bytes)
    requires |front| + AUX <= at && at + |data| <= |start| && vec == |front|
    requires buf[..] == Filled(start, at, front, data)
    modifies buf
    ensures buf[..] == Filled(start, at, front + (Word(a.kind) + Word(a.value)), data)
  {
    hide Word, Filled;
    PutFront(buf, vec, Word(a.kind) + Word(a.value), start, at, front, data);
  }

  method Repoint(buf: array<byte>, vec: nat, a: Aux, pointer: nat, ghost start: Bytes, ghost at: nat,
                 ghost front: Bytes, ghost data: Bytes)
    requires |front| + AUX <= at && at + |data| <= |start| && vec == |front|
    requires buf[..] == Filled(start, at, front + (Word(a.kind) + Word(a.value)), data)
    modifies buf
    ensures buf[..] == Filled(start, at, front + (Word(a.kind) + Word(pointer)), data)
  {
    hide Word;
    ghost var f := front + Word(a.kind);
    assert front + (Word(a.kind) + Word(a.value)) == f + Word(a.value)
           && front + (Word(a.kind) + Word(pointer)) == f + Word(pointer);
    FrontChanges(start, at, f, data, Word(a.value), Word(pointer));
    Put(buf, vec + WORD, Word(pointer));
  }

  lemma AuxNone(v: seq<Aux>, pht: nat -> Bytes, at: nat, front: Bytes, data: Bytes)
    ensures front == front + Entries(v[..0], at) && data == data + [] && Tables(v[..0], pht) == []
  {
  }

  lemma AuxStep(v: seq<Aux>, i: nat, pht: nat -> Bytes, at: nat, front: Bytes, phtsize: nat)
    requires i < |v|
    ensures front + Entries(v[..i + 1], at)
        == front + Entries(v[..i], at) + (Word(v[i].kind) + Word(if v[i].kind == AT_PHDR then at else v[i].value))
    ensures Tables(v[..i + 1], pht) == if v[i].kind == AT_PHDR then pht(v[i].value) else Tables(v[..i], pht)
    ensures v[i].kind == AT_PHDR ==> phtsize <= Room(v, phtsize)
  {
    hide Entries, Headers, Word;
    assert v[..i + 1] == v[..i] + [v[i]] && v == v[..i + 1] + v[i + 1..] && v[..i + 1][..i] == v[..i];
    EntriesAppend(v[..i], [v[i]], at);
    EntriesAppend(v[..i + 1], v[i + 1..], at);
    OneEntry(v[i], at);
    if v[i].kind == AT_PHDR {
      AtLeastOne(Headers(v), phtsize);
    }
  }

  lemma AtLeastOne(n: nat, size: nat)
    requires n >= 1
    ensures size <= n * size
  {
  }

  lemma OneEntry(a: Aux, at: nat)
    ensures
      && Entries([a], at) == Word(a.kind) + Word(if a.kind == AT_PHDR then at else a.value)
      && Headers([a]) == if a.kind == AT_PHDR then 1 else 0
  {
    assert [a][1..] == [];
  }

  /** Writes the initial stack; `image` is what is copied to user space at `low`. */
  method LoadArgs(buf: array<byte>, low: nat, argsize: nat, argv: seq<Bytes>, envp: seq<Bytes>, auxv: seq<Aux>,
                  pht: nat -> Bytes, phtsize: nat)
    returns (image: Bytes)
    requires forall p: nat :: |pht(p)| == phtsize
    requires argsize == ArgSize(argv, envp, auxv, phtsize) && argsize <= buf.Length
    modifies buf
    ensures var at, data := HEAD + VectorSize(|argv|, |envp|, |auxv|), Data(argv, envp, auxv, pht);
      && WORD <= at && at + |data| <= argsize == |image|
      && (at + |data| == argsize <==> Headers(auxv) <= 1 || phtsize == 0)
      && image
        == Vectors(low, argv, envp, auxv) + old(buf[..])[at - WORD..at] + data + old(buf[..])[at + |data|..argsize]
    ensures buf[argsize..] == old(buf[argsize..])
  {
    hide Word, Strings, Pointers, Entries, Headers, Tables, Filled;
    ghost var start := buf[..];
    var argc, envc, auxc := |argv|, |envp|, |auxv|;
    var vec, str := HEAD, HEAD + VectorSize(argc, envc, auxc);
    ghost var at := str;
    Tiles(low, argv, envp, auxv, pht, phtsize);
    PutHead(buf, low, argc, envc, start, at);
    ghost var front := Head(low, argc, envc);
    vec, str := CopyStrings(buf, low, argv, vec, str, start, at, front, []);
    front := front + Pointers(argv, low + at) + Word(0);
    vec, str := CopyStrings(buf, low, envp, vec, str, start, at, front, [] + Strings(argv));
    front := front + Pointers(envp, low + at + |Strings(argv)|) + Word(0);
    CopyAux(buf, low, auxv, pht, phtsize, vec, str, start, at, front, [] + Strings(argv) + Strings(envp));
    front := front + Entries(auxv, low + str) + Word(AT_NULL);
    assert [] + Strings(argv) + Strings(envp) + Tables(auxv, pht) == Data(argv, envp, auxv, pht);
    assert front == Vectors(low, argv, envp, auxv);
    image := buf[..argsize];
    FilledImage(start, at, front, Data(argv, envp, auxv, pht), argsize);
  }

  lemma FilledImage(start: Bytes, at: nat, front: Bytes, data: Bytes, n: nat)
    requires |front| + WORD == at && at + |data| <= n <= |start|
    ensures |Filled(start, at, front, data)| == |start| && Filled(start, at, front, data)[n..] == start[n..]
    ensures Filled(start, at, front, data)[..n] == front + start[at - WORD..at] + data + start[at + |data|..n]
  {
  }

  method PutHead(buf: array<byte>, low: nat, argc: nat, envc: nat, ghost start: Bytes, ghost at: nat)
    requires buf[..] == start && HEAD <= at <= buf.Length
    modifies buf
    ensures buf[..] == Filled(start, at, Head(low, argc, envc), [])
  {
    hide Word, Filled;
    var vec := low + HEAD;
    StartFilled(start, at);
    PutFront(buf, 0, Word(argc), start, at, [], []);
    assert [] + Word(argc) == Word(argc);
    PutFront(buf, 8, Word(vec), start, at, Word(argc), []);
    PutFront(buf, 16, Word(vec + (argc + 1) * WORD), start, at, Word(argc) + Word(vec), []);
    PutFront(buf, 24, Word(vec + (argc + 1 + envc + 1) * WORD), start, at,
             Word(argc) + Word(vec) + Word(vec + (argc + 1) * WORD), []);
  }

  lemma StartFilled(start: Bytes, at: nat)
    requires at <= |start|
    ensures Filled(start, at, [], []) == start
  {
  }

  // ------------------------------------------------------------------- what is read

  /** The bytes up to the next null. */
  function CString(s: Bytes, o: nat): Bytes
    decreases |s| - o
  {
    if o >= |s| || s[o] == 0 then [] else [s[o]] + CString(s, o + 1)
  }

  /** The word at an offset; 0 where there is none. */
  function WordAt(s: Bytes, o: nat): nat {
    if o + WORD <= |s| then Value(s[o..o + WORD]) else 0
  }

  /** A null-terminated vector of strings, in memory that starts at `low`. */
  function ReadVector(s: Bytes, low: nat, o: nat): seq<Bytes>
    decreases |s| - o
  {
    if o + WORD > |s| || WordAt(s, o) < low || WordAt(s, o) == 0 then []
    else [CString(s, WordAt(s, o) - low)] + ReadVector(s, low, o + WORD)
  }

  function ReadAux(s: Bytes, o: nat): seq<Aux>
    decreases |s| - o
  {
    if o + AUX > |s| || WordAt(s, o) == AT_NULL then []
    else [Aux(WordAt(s, o), WordAt(s, o + WORD))] + ReadAux(s, o + AUX)
  }

  ghost predicate Has(s: Bytes, o: nat, t: Bytes) {
    o + |t| <= |s| && s[o..o + |t|] == t
  }

  lemma HasBoth(s: Bytes, o: nat, t: Bytes, u: Bytes)
    requires Has(s, o, t + u)
    ensures Has(s, o, t) && Has(s, o + |t|, u)
  {
    assert s[o..o + |t|] == s[o..o + |t + u|][..|t|];
    assert s[o + |t|..o + |t| + |u|] == s[o..o + |t + u|][|t|..];
  }

  lemma HasWord(s: Bytes, o: nat, w: nat)
    requires Has(s, o, Word(w)) && w < TWO_64
    ensures WordAt(s, o) == w
  {
    hide Word, Value;
    ValueOfWord(w);
  }

  lemma {:induction false} HasString(s: Bytes, o: nat, t: Bytes)
    requires Has(s, o, t + [0]) && IsString(t)
    ensures CString(s, o) == t
    decreases |t|
  {
    assert s[o] == s[o..o + |t| + 1][0];
    if t != [] {
      assert t + [0] == [t[0]] + (t[1..] + [0]);
      HasBoth(s, o, [t[0]], t[1..] + [0]);
      HasString(s, o + 1, t[1..]);
    }
  }

  lemma {:induction false} VectorReads(s: Bytes, low: nat, o: nat, str: nat, v: seq<Bytes>)
    requires Has(s, o, Pointers(v, low + str) + Word(0)) && Has(s, str, Strings(v)) && low > 0 && low + |s| <= TWO_64
    requires forall i :: 0 <= i < |v| ==> IsString(v[i])
    ensures ReadVector(s, low, o) == v
    decreases |v|
  {
    hide Word, WordAt, Has, CString, IsString;
    if v == [] {
      assert [] + Word(0) == Word(0);
      HasWord(s, o, 0);
      HasRoom(s, o, Word(0));
    } else {
      var rest := v[1..];
      assert Pointers(v, low + str) + Word(0) == Word(low + str) + (Pointers(rest, low + str + |v[0]| + 1) + Word(0));
      HasBoth(s, o, Word(low + str), Pointers(rest, low + str + |v[0]| + 1) + Word(0));
      HasRoom(s, o, Word(low + str));
      assert Strings(v) == (v[0] + [0]) + Strings(rest);
      HasBoth(s, str, v[0] + [0], Strings(rest));
      HasRoom(s, str, v[0] + [0]);
      HasWord(s, o, low + str);
      HasString(s, str, v[0]);
      VectorReads(s, low, o + WORD, str + |v[0]| + 1, rest);
    }
  }

  lemma HasRoom(s: Bytes, o: nat, t: Bytes)
    requires Has(s, o, t)
    ensures o + |t| <= |s|
  {
  }

  /** The auxiliary vector as the program sees it: the header table has moved. */
  function Moved(v: seq<Aux>, at: nat): seq<Aux> {
    if v == [] then [] else [if v[0].kind == AT_PHDR then v[0].(value := at) else v[0]] + Moved(v[1..], at)
  }

  lemma {:induction false} AuxReads(s: Bytes, o: nat, v: seq<Aux>, at: nat)
    requires Has(s, o, Entries(v, at) + Word(AT_NULL)) && at < TWO_64 && o + AUX * (|v| + 1) <= |s|
    requires forall i :: 0 <= i < |v| ==> 0 < v[i].kind < TWO_64 && v[i].value < TWO_64
    ensures ReadAux(s, o) == Moved(v, at)
    decreases |v|
  {
    hide Word, WordAt, Has;
    if v == [] {
      assert [] + Word(AT_NULL) == Word(AT_NULL);
      HasWord(s, o, AT_NULL);
    } else {
      var rest := v[1..];
      var value := if v[0].kind == AT_PHDR then at else v[0].value;
      assert Entries(v, at) + Word(AT_NULL) == Word(v[0].kind) + (Word(value) + (Entries(rest, at) + Word(AT_NULL)));
      HasBoth(s, o, Word(v[0].kind), Word(value) + (Entries(rest, at) + Word(AT_NULL)));
      HasBoth(s, o + WORD, Word(value), Entries(rest, at) + Word(AT_NULL));
      HasWord(s, o, v[0].kind);
      HasWord(s, o + WORD, value);
      AuxReads(s, o + AUX, rest, at);
    }
  }

  /** The parts of an image, each at its place. */
  ghost predicate Laid(s: Bytes, low: nat, argv: seq<Bytes>, envp: seq<Bytes>, auxv: seq<Aux>, pht: nat -> Bytes) {
    var vec := HEAD;
    var str := vec + VectorSize(|argv|, |envp|, |auxv|);
    var a, e := |Strings(argv)|, |Strings(envp)|;
    && Has(s, 0, Head(low, |argv|, |envp|))
    && Has(s, vec, Pointers(argv, low + str) + Word(0))
    && Has(s, vec + (|argv| + 1) * WORD, Pointers(envp, low + str + a) + Word(0))
    && Has(s, vec + (|argv| + 1 + |envp| + 1) * WORD, Entries(auxv, low + str + a + e) + Word(AT_NULL))
    && Has(s, str, Strings(argv)) && Has(s, str + a, Strings(envp)) && Has(s, str + a + e, Tables(auxv, pht))
  }

  lemma HasJoin(s: Bytes, o: nat, t: Bytes, u: Bytes)
    requires Has(s, o, t) && Has(s, o + |t|, u)
    ensures Has(s, o, t + u)
  {
    assert s[o..o + |t + u|] == s[o..o + |t|] + s[o + |t|..o + |t| + |u|];
  }

  /** Six pieces in a row, of which the last five are wanted in pairs. */
  lemma HasPieces(s: Bytes, h: Bytes, p: Bytes, z: Bytes, q: Bytes, x: Bytes, n: Bytes)
    requires Has(s, 0, h + p + z + q + z + x + n)
    ensures Has(s, 0, h) && Has(s, |h|, p + z) && Has(s, |h| + |p| + |z|, q + z)
    ensures Has(s, |h| + |p| + |z| + |q| + |z|, x + n)
  {
    hide Has;
    HasBoth(s, 0, h + p + z + q + z + x, n);
    HasBoth(s, 0, h + p + z + q + z, x);
    HasBoth(s, 0, h + p + z + q, z);
    HasBoth(s, 0, h + p + z, q);
    HasBoth(s, 0, h + p, z);
    HasBoth(s, 0, h, p);
    HasJoin(s, |h|, p, z);
    HasJoin(s, |h| + |p| + |z|, q, z);
    HasJoin(s, |h| + |p| + |z| + |q| + |z|, x, n);
  }

  lemma ImageIsLaid(s: Bytes, low: nat, argv: seq<Bytes>, envp: seq<Bytes>, auxv: seq<Aux>, pht: nat -> Bytes,
                    gap: Bytes, rest: Bytes)
    requires |gap| == WORD && s == Vectors(low, argv, envp, auxv) + gap + Data(argv, envp, auxv, pht) + rest
    ensures Laid(s, low, argv, envp, auxv, pht)
  {
    hide Word, Strings, Pointers, Entries, Headers, Tables, Has;
    var str := HEAD + VectorSize(|argv|, |envp|, |auxv|);
    var a, e := |Strings(argv)|, |Strings(envp)|;
    VectorsSize(low, argv, envp, auxv);
    PointersSize(argv, low + str);
    PointersSize(envp, low + str + a);
    HasAll(s);
    HasBoth(s, 0, Vectors(low, argv, envp, auxv) + gap + Data(argv, envp, auxv, pht), rest);
    HasBoth(s, 0, Vectors(low, argv, envp, auxv) + gap, Data(argv, envp, auxv, pht));
    HasBoth(s, 0, Vectors(low, argv, envp, auxv), gap);
    HasPieces(s, Head(low, |argv|, |envp|), Pointers(argv, low + str), Word(0), Pointers(envp, low + str + a),
              Entries(auxv, low + str + a + e), Word(AT_NULL));
    HasBoth(s, str, Strings(argv) + Strings(envp), Tables(auxv, pht));
    HasBoth(s, str, Strings(argv), Strings(envp));
  }

  lemma HasAll(s: Bytes)
    ensures Has(s, 0, s)
  {
  }

  /** The pointers at the start of the stack. */
  lemma HeadReads(s: Bytes, low: nat, argc: nat, envc: nat)
    requires Has(s, 0, Head(low, argc, envc)) && low + HEAD + (argc + 1 + envc + 1) * WORD < TWO_64
    ensures WordAt(s, 0) == argc && WordAt(s, 8) == low + HEAD && WordAt(s, 16) == low + HEAD + (argc + 1) * WORD
    ensures WordAt(s, 24) == low + HEAD + (argc + 1 + envc + 1) * WORD
  {
    hide Word, Has, WordAt;
    var vec := low + HEAD;
    var w0, w1, w2, w3 := Word(argc), Word(vec), Word(vec + (argc + 1) * WORD),
        Word(vec + (argc + 1 + envc + 1) * WORD);
    HasBoth(s, 0, w0 + w1 + w2, w3);
    HasBoth(s, 0, w0 + w1, w2);
    HasBoth(s, 0, w0, w1);
    HasWord(s, 0, argc);
    HasWord(s, 8, vec);
    HasWord(s, 16, vec + (argc + 1) * WORD);
    HasWord(s, 24, vec + (argc + 1 + envc + 1) * WORD);
  }

  /** The program that follows the pointers from the start of its stack finds what the loader was given. */
  lemma ReadBack(s: Bytes, low: nat, argv: seq<Bytes>, envp: seq<Bytes>, auxv: seq<Aux>, pht: nat -> Bytes, gap: Bytes,
                 rest: Bytes)
    requires |gap| == WORD && s == Vectors(low, argv, envp, auxv) + gap + Data(argv, envp, auxv, pht) + rest
    requires low > 0 && low + |s| < TWO_64
    requires (forall i :: 0 <= i < |argv| ==> IsString(argv[i])) && (forall i :: 0 <= i < |envp| ==> IsString(envp[i]))
    requires forall i :: 0 <= i < |auxv| ==> 0 < auxv[i].kind < TWO_64 && auxv[i].value < TWO_64
    ensures WordAt(s, 0) == |argv|
    ensures low <= WordAt(s, 8) && ReadVector(s, low, WordAt(s, 8) - low) == argv
    ensures low <= WordAt(s, 16) && ReadVector(s, low, WordAt(s, 16) - low) == envp
    ensures low <= WordAt(s, 24) && ReadAux(s, WordAt(s, 24) - low) == Moved(auxv, low + TableAt(argv, envp, auxv))
    ensures Has(s, TableAt(argv, envp, auxv), Tables(auxv, pht))
  {
    hide Word, Strings, Pointers, Entries, Headers, Tables, Has, Vectors, WordAt, IsString, Moved, Data, Head, Laid;
    ImageIsLaid(s, low, argv, envp, auxv, pht, gap, rest);
    LaidHead(s, low, argv, envp, auxv, pht);
    LaidVectors(s, low, argv, envp, auxv, pht);
    LaidAux(s, low, argv, envp, auxv, pht);
  }

  /** Where the header table goes. */
  function TableAt(argv: seq<Bytes>, envp: seq<Bytes>, auxv: seq<Aux>): nat {
    HEAD + VectorSize(|argv|, |envp|, |auxv|) + |Strings(argv)| + |Strings(envp)|
  }

  lemma LaidHead(s: Bytes, low: nat, argv: seq<Bytes>, envp: seq<Bytes>, auxv: seq<Aux>, pht: nat -> Bytes)
    requires Laid(s, low, argv, envp, auxv, pht) && low + |s| < TWO_64
    ensures WordAt(s, 0) == |argv| && WordAt(s, 8) == low + HEAD && WordAt(s, 16) == low + HEAD + (|argv| + 1) * WORD
    ensures WordAt(s, 24) == low + HEAD + (|argv| + 1 + |envp| + 1) * WORD
    ensures TableAt(argv, envp, auxv) <= |s|
  {
    hide Word, Strings, Pointers, Entries, Headers, Tables, Has, WordAt, Head;
    var str := HEAD + VectorSize(|argv|, |envp|, |auxv|);
    HasRoom(s, str + |Strings(argv)|, Strings(envp));
    HeadReads(s, low, |argv|, |envp|);
  }

  lemma LaidVectors(s: Bytes, low: nat, argv: seq<Bytes>, envp: seq<Bytes>, auxv: seq<Aux>, pht: nat -> Bytes)
    requires Laid(s, low, argv, envp, auxv, pht) && low > 0 && low + |s| < TWO_64
    requires (forall i :: 0 <= i < |argv| ==> IsString(argv[i])) && (forall i :: 0 <= i < |envp| ==> IsString(envp[i]))
    ensures ReadVector(s, low, HEAD) == argv && ReadVector(s, low, HEAD + (|argv| + 1) * WORD) == envp
  {
    hide Word, Strings, Pointers, Entries, Headers, Tables, Has, WordAt, Head, IsString, ReadVector;
    var str := HEAD + VectorSize(|argv|, |envp|, |auxv|);
    VectorReads(s, low, HEAD, str, argv);
    VectorReads(s, low, HEAD + (|argv| + 1) * WORD, str + |Strings(argv)|, envp);
  }

  lemma LaidAux(s: Bytes, low: nat, argv: seq<Bytes>, envp: seq<Bytes>, auxv: seq<Aux>, pht: nat -> Bytes)
    requires Laid(s, low, argv, envp, auxv, pht) && low + |s| < TWO_64 && TableAt(argv, envp, auxv) <= |s|
    requires forall i :: 0 <= i < |auxv| ==> 0 < auxv[i].kind < TWO_64 && auxv[i].value < TWO_64
    ensures ReadAux(s, HEAD + (|argv| + 1 + |envp| + 1) * WORD) == Moved(auxv, low + TableAt(argv, envp, auxv))
    ensures Has(s, TableAt(argv, envp, auxv), Tables(auxv, pht))
  {
    hide Word, Strings, Pointers, Entries, Headers, Tables, Has, WordAt, Head, ReadAux, Moved;
    AuxReads(s, HEAD + (|argv| + 1 + |envp| + 1) * WORD, auxv, low + TableAt(argv, envp, auxv));
  }
}
