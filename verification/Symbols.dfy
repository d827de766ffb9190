/** kernel_probe/mapper.c: the growable table of function address ranges. */
module Mapper {
  import opened Bytes

  type Name = seq<byte>

  datatype Item = Item(name: Name, ip: ulong, size: ulong)

  datatype Lookup = Null | Name(name: Name)

  /** The range test of `get_func_name`; the end wraps around like the C sum. */
  predicate Matches(t: Item, ip: ulong) {
    t.ip <= ip < (t.ip + t.size) % TWO64
  }

  function FirstMatch(items: seq<Item>, ip: ulong): (r: Lookup) {
    if items == [] then Null
    else if Matches(items[0], ip) then Lookup.Name(items[0].name)
    else FirstMatch(items[1..], ip)
  }

  function Pow2(n: nat): (p: nat)
    ensures p > 0
  {
    if n == 0 then 1 else 2 * Pow2(n - 1)
  }

  class Table {
    var items: array<Item>
    var cur: nat
    ghost const initial: nat
    ghost var doublings: nat
    ghost var recopied: nat

    /** The capacity has been doubled a whole number of times, each time when it was
        full; so fewer than two entries were recopied per entry stored. */
    ghost predicate Valid()
      reads this
    {
      && 0 < initial && cur <= items.Length && items.Length == initial * Pow2(doublings)
      && recopied == items.Length - initial
      && (items.Length == initial || items.Length <= 2 * cur)
    }

    ghost function Items(): (s: seq<Item>)
      requires Valid()
      reads this, items
    {
      items[..cur]
    }

    /** `init_mapper` */
    constructor (size: nat)
      requires 0 < size
      ensures Valid() && Items() == [] && items.Length == size == initial && recopied == 0 && fresh(items)
    {
      items := new Item[size](_ => Item([], 0, 0));
      cur, initial, doublings, recopied := 0, size, 0, 0;
    }

    /** The reallocation in `insert_mapper`. */
    method Grow()
      requires Valid() && cur == items.Length
      modifies this
      ensures Valid() && Items() == old(Items()) && cur == old(cur)
      ensures items.Length == 2 * old(items.Length) && fresh(items)
    {
      var tmp := new Item[2 * items.Length](_ => Item([], 0, 0));
      for i := 0 to cur
        invariant items == old(items) && cur == old(cur) && doublings == old(doublings)
        invariant recopied == old(recopied) + i
        invariant items[..] == old(items[..]) && tmp[..i] == items[..i]
        modifies tmp, this`recopied
      {
        tmp[i] := items[i];
        recopied := recopied + 1;
      }
      items := tmp;
      doublings := doublings + 1;
      assert Pow2(doublings) == 2 * Pow2(doublings - 1);
      Doubling(initial, Pow2(doublings - 1));
    }

    /** `insert_mapper`; `granted` is the answer of the allocator if it is asked.  A
        failed insert changes nothing. */
    method InsertMapper(name: Name, ip: ulong, size: ulong, granted: bool) returns (ret: int)
      requires Valid()
      modifies this, items
      ensures Valid() && (items == old(items) || fresh(items))
      ensures ret == if old(cur == items.Length) && !granted then -1 else 0
      ensures Items() == if ret == -1 then old(Items()) else old(Items()) + [Item(name, ip, size)]
      ensures if ret == -1 then items == old(items) && cur == old(cur) else recopied < 2 * cur
    {
      if cur == items.Length {
        if !granted {
          return -1;
        }
        Grow();
      }
      items[cur] := Item(name, ip, size);
      cur := cur + 1;
      assert items[..cur - 1] == old(items[..cur]);
      return 0;
    }

    /** `get_func_name` */
    method GetFuncName(ip: ulong) returns (r: Lookup)
      requires Valid()
      ensures r == FirstMatch(Items(), ip)
    {
      for i := 0 to cur
        invariant FirstMatch(Items(), ip) == FirstMatch(Items()[i..], ip)
      {
        var tmp := items[i];
        assert Items()[i..][0] == tmp && Items()[i..][1..] == Items()[i + 1..];
        if ip >= tmp.ip && ip < (tmp.ip + tmp.size) % TWO64 {
          return Lookup.Name(tmp.name);
        }
      }
      return Null;
    }
  }

  lemma Doubling(a: nat, p: nat)
    ensures a * (2 * p) == 2 * (a * p)
  {
  }
}

/** kernel_probe/parse_elf.c: reading the static symbol table of an ELF64 image.  Field
    offsets are those of the ELF-64 header, section header and symbol structures in the
    "Sections" and "Symbol Table" parts of chapter 4 of the System V ABI. */
module Elf {
  import opened Bytes
  import opened Mapper

  const EHDR_SIZE: nat := 64
  const SHDR_SIZE: nat := 64
  const SYM_SIZE: nat := 24
  const SHT_SYMTAB: nat := 2

  /** The little-endian field of `n` bytes at offset `o`. */
  function Field(image: seq<byte>, o: nat, n: nat): (v: nat)
    requires o + n <= |image|
  {
    Decode(image[o..o + n])
  }

  predicate IsElf(image: seq<byte>) {
    |image| >= EHDR_SIZE && image[..4] == [0x7f, 0x45, 0x4c, 0x46]
  }

  /** The first bytes of an ELF file are 127 and the letters E, L, F. */
  lemma Magic(image: seq<byte>)
    ensures IsElf(image) <==>
      && 64 <= |image| && image[0] == 127 && image[1] as int == 'E' as int
      && image[2] as int == 'L' as int && image[3] as int == 'F' as int
  {
    if 64 <= |image| {
      assert image[..4] == [image[0], image[1], image[2], image[3]];
    }
  }

  function SectionCount(image: seq<byte>): (n: nat)
    requires IsElf(image)
  {
    Field(image, 60, 2)
  }

  function SectionAt(image: seq<byte>, i: nat): (o: nat)
    requires IsElf(image)
  {
    Field(image, 40, 8) + SHDR_SIZE * i
  }

  predicate HasSection(image: seq<byte>, i: nat) {
    IsElf(image) && SectionAt(image, i) + SHDR_SIZE <= |image|
  }

  function SectionType(image: seq<byte>, i: nat): (t: nat)
    requires HasSection(image, i)
  {
    Field(image, SectionAt(image, i) + 4, 4)
  }

  function SectionOffset(image: seq<byte>, i: nat): (o: nat)
    requires HasSection(image, i)
  {
    Field(image, SectionAt(image, i) + 24, 8)
  }

  function SectionSize(image: seq<byte>, i: nat): (o: nat)
    requires HasSection(image, i)
  {
    Field(image, SectionAt(image, i) + 32, 8)
  }

  function SectionLink(image: seq<byte>, i: nat): (o: nat)
    requires HasSection(image, i)
  {
    Field(image, SectionAt(image, i) + 40, 4)
  }

  /** Where the symbol table starts and ends, and where its string table starts. */
  datatype Object = Object(symtab: nat, symtabEnd: nat, strtab: nat)

  /** `elf_open` refuses the file, reads a header outside it, or succeeds; `found` is
      false when there is no static symbol table and the fields keep garbage. */
  datatype Opened = Failed | Fault | Open(found: bool, elf: Object)

  /** The headers read for section `i` are inside the image. */
  ghost predicate SectionInside(image: seq<byte>, i: nat) {
    HasSection(image, i) && (SectionType(image, i) == SHT_SYMTAB ==> HasSection(image, SectionLink(image, i)))
  }

  ghost predicate HeadersInside(image: seq<byte>)
    requires IsElf(image)
  {
    forall i :: 0 <= i < SectionCount(image) ==> SectionInside(image, i)
  }

  ghost predicate IsSymtab(image: seq<byte>, i: nat) {
    SectionInside(image, i) && SectionType(image, i) == SHT_SYMTAB
  }

  ghost function ObjectOf(image: seq<byte>, i: nat): (e: Object)
    requires IsSymtab(image, i)
  {
    var o := SectionOffset(image, i);
    Object(o, o + SectionSize(image, i), SectionOffset(image, SectionLink(image, i)))
  }

  /** `k` is the last of the first `n` sections that is a static symbol table. */
  ghost predicate LastSymtab(image: seq<byte>, n: nat, k: nat) {
    k < n && IsSymtab(image, k) && forall j :: k < j < n ==> !IsSymtab(image, j)
  }

  /** `elf_open`, from the point where the file is in memory: too short or wrongly marked
      files are refused; the last static symbol table wins. */
  method ElfOpen(image: seq<byte>) returns (r: Opened)
    ensures r.Failed? <==> !IsElf(image)
    ensures r.Fault? <==> IsElf(image) && !HeadersInside(image)
    ensures r.Open? && !r.found ==> forall j :: 0 <= j < SectionCount(image) ==> !IsSymtab(image, j)
    ensures r.Open? && r.found ==> exists k :: LastSymtab(image, SectionCount(image), k) && r.elf == ObjectOf(image, k)
  {
    if |image| < EHDR_SIZE || image[..4] != [0x7f, 0x45, 0x4c, 0x46] {
      return Failed;
    }
    hide Field;
    var found, elf := false, Object(0, 0, 0);
    ghost var at: nat := 0;
    for i := 0 to SectionCount(image)
      invariant forall j :: 0 <= j < i ==> SectionInside(image, j)
      invariant !found ==> forall j :: 0 <= j < i ==> !IsSymtab(image, j)
      invariant found ==> LastSymtab(image, i, at) && elf == ObjectOf(image, at)
    {
      if !HasSection(image, i) {
        assert !SectionInside(image, i);
        return Fault;
      }
      if SectionType(image, i) == SHT_SYMTAB {
        if !HasSection(image, SectionLink(image, i)) {
          assert !SectionInside(image, i);
          return Fault;
        }
        var o := SectionOffset(image, i);
        elf := Object(o, o + SectionSize(image, i), SectionOffset(image, SectionLink(image, i)));
        found, at := true, i;
      }
    }
    return Open(found, elf);
  }

  // ------------------------------------------------------------------- symbols

  /** The string at `o` has its terminator inside the image. */
  ghost predicate Terminated(image: seq<byte>, o: nat) {
    exists z :: o <= z < |image| && image[z] == 0
  }

  /** The bytes at `o` are `s` and a terminator. */
  ghost predicate Spells(image: seq<byte>, o: nat, s: seq<byte>) {
    o + |s| < |image| && image[o..o + |s|] == s && image[o + |s|] == 0 && 0 !in s
  }

  /** The string at `o`, up to its terminator. */
  ghost function CString(image: seq<byte>, o: nat): (s: Name)
    requires Terminated(image, o)
    ensures Spells(image, o, s)
    decreases |image| - o
  {
    if image[o] == 0 then [] else [image[o]] + CString(image, o + 1)
  }

  /** What a string is spelled like is unambiguous. */
  lemma SpellsUnique(image: seq<byte>, o: nat, s: seq<byte>, t: seq<byte>)
    requires Spells(image, o, s) && Spells(image, o, t)
    ensures s == t
  {
    SpellsLonger(image, o, s, t);
    SpellsLonger(image, o, t, s);
    assert s == image[o..o + |s|] == t;
  }

  lemma SpellsLonger(image: seq<byte>, o: nat, s: seq<byte>, t: seq<byte>)
    requires Spells(image, o, s) && Spells(image, o, t)
    ensures |t| <= |s|
  {
  }

  /** `strlen` and the copy of a name; `ok` is false when it runs out of the image. */
  method CopyName(image: seq<byte>, o: nat) returns (ok: bool, name: Name)
    ensures ok <==> Terminated(image, o)
    ensures ok ==> name == CString(image, o) && Spells(image, o, name)
  {
    hide Spells;
    name := [];
    var i := o;
    while i < |image| && image[i] != 0
      invariant o <= i && (i <= |image| || i == o)
      invariant forall z :: o <= z < i ==> image[z] != 0
      invariant Terminated(image, o) ==> Terminated(image, i) && CString(image, o) == name + CString(image, i)
      decreases |image| - i
    {
      name := name + [image[i]];
      i := i + 1;
    }
    ok := i < |image|;
  }

  lemma FieldIsUlong(image: seq<byte>, o: nat)
    requires o + 8 <= |image|
    ensures Field(image, o, 8) < TWO64
  {
    var v: ulong := WordAt(image, o);
    assert v == Field(image, o, 8);
  }

  /** `elf_symvalue` and `elf_symsize` */
  function SymbolField(image: seq<byte>, o: nat): (v: ulong)
    requires o + 8 <= |image|
  {
    FieldIsUlong(image, o);
    Field(image, o, 8)
  }

  function NameAt(image: seq<byte>, e: Object, p: nat): (o: nat)
    requires p + SYM_SIZE <= |image|
  {
    e.strtab + Field(image, p, 4)
  }

  /** Symbol `p` is inside the image, and so is its name unless the symbol is empty. */
  ghost predicate SymbolInside(image: seq<byte>, e: Object, p: nat) {
    p + SYM_SIZE <= |image| && (SymbolField(image, p + 16) != 0 ==> Terminated(image, NameAt(image, e, p)))
  }

  /** The symbol at offset `p`; the name of an empty one is not read. */
  ghost function Symbol(image: seq<byte>, e: Object, p: nat): (t: Item)
    requires SymbolInside(image, e, p)
  {
    var size := SymbolField(image, p + 16);
    Item(if size != 0 then CString(image, NameAt(image, e, p)) else [], SymbolField(image, p + 8), size)
  }

  /** The offsets that the loop of `parse` visits from `p` on: it moves on while the next
      symbol starts before the end of the table. */
  ghost function Offsets(e: Object, p: nat): (s: seq<nat>)
    decreases e.symtabEnd - p
  {
    [p] + if p + SYM_SIZE < e.symtabEnd then Offsets(e, p + SYM_SIZE) else []
  }

  /** The visited offsets are consecutive entries.  The first is always visited; for a
      table of whole entries they are exactly its entries. */
  lemma {:induction false} OffsetsShape(e: Object, p: nat)
    ensures var s := Offsets(e, p);
      && 0 < |s| && (forall k :: 0 <= k < |s| ==> s[k] == p + SYM_SIZE * k)
      && p + SYM_SIZE * |s| >= e.symtabEnd
      && (1 < |s| ==> p + SYM_SIZE * (|s| - 1) < e.symtabEnd)
    ensures p < e.symtabEnd && (e.symtabEnd - p) % SYM_SIZE == 0 ==> |Offsets(e, p)| == (e.symtabEnd - p) / SYM_SIZE
    decreases e.symtabEnd - p
  {
    if p + SYM_SIZE < e.symtabEnd {
      OffsetsShape(e, p + SYM_SIZE);
      var s, t := Offsets(e, p), Offsets(e, p + SYM_SIZE);
      assert forall k :: 1 <= k < |s| ==> s[k] == t[k - 1];
    }
  }

  ghost predicate AllInside(image: seq<byte>, e: Object, offs: seq<nat>) {
    forall k :: 0 <= k < |offs| ==> SymbolInside(image, e, offs[k])
  }

  ghost function SymbolsAt(image: seq<byte>, e: Object, offs: seq<nat>): (s: seq<Item>)
    requires AllInside(image, e, offs)
    ensures |s| == |offs|
  {
    seq(|offs|, k requires 0 <= k < |offs| => Symbol(image, e, offs[k]))
  }

  /** The entries that `parse` stores. */
  ghost function NonEmpty(s: seq<Item>): (r: seq<Item>) {
    if s == [] then [] else (if s[0].size != 0 then [s[0]] else []) + NonEmpty(s[1..])
  }

  lemma {:induction false} NonEmptyAppend(s: seq<Item>, t: Item)
    ensures NonEmpty(s + [t]) == NonEmpty(s) + if t.size != 0 then [t] else []
  {
    if s == [] {
      assert s + [t] == [t] && [t][1..] == [];
    } else {
      NonEmptyAppend(s[1..], t);
      assert (s + [t])[1..] == s[1..] + [t];
    }
  }

  /** What has been stored after the symbols `offs`. */
  ghost predicate Stored(items: seq<Item>, before: seq<Item>, image: seq<byte>, e: Object, offs: seq<nat>) {
    AllInside(image, e, offs) && items == before + NonEmpty(SymbolsAt(image, e, offs))
  }

  lemma StoredStep(items: seq<Item>, before: seq<Item>, image: seq<byte>, e: Object, offs: seq<nat>, k: nat)
    requires k < |offs| && Stored(items, before, image, e, offs[..k]) && SymbolInside(image, e, offs[k])
    ensures var t := Symbol(image, e, offs[k]);
      Stored(if t.size != 0 then items + [t] else items, before, image, e, offs[..k + 1])
  {
    var t := Symbol(image, e, offs[k]);
    assert offs[..k + 1] == offs[..k] + [offs[k]];
    assert AllInside(image, e, offs[..k + 1]);
    assert SymbolsAt(image, e, offs[..k + 1]) == SymbolsAt(image, e, offs[..k]) + [t];
    NonEmptyAppend(SymbolsAt(image, e, offs[..k]), t);
  }

  lemma OffsetsStep(e: Object, p: nat, k: nat)
    requires k < |Offsets(e, p)|
    ensures Offsets(e, p)[k] == p + SYM_SIZE * k
    ensures k + 1 < |Offsets(e, p)| <==> p + SYM_SIZE * k + SYM_SIZE < e.symtabEnd
  {
    OffsetsShape(e, p);
  }

  /** `parse`, after the file was opened.  `grant(k)` is the answer of the allocator while
      symbol `k` is stored.  The first `n` symbols were handled: all of them, or those
      before one that lies outside the image (`ok` is false), or those before one whose
      insertion was refused. */
  method Parse(image: seq<byte>, e: Object, mapper: Table, grant: nat -> bool) returns (ok: bool, ghost n: nat)
    requires mapper.Valid()
    modifies mapper, mapper.items
    ensures mapper.Valid() && n <= |Offsets(e, e.symtab)|
    ensures Stored(mapper.Items(), old(mapper.Items()), image, e, Offsets(e, e.symtab)[..n])
    ensures n < |Offsets(e, e.symtab)| ==> var p := Offsets(e, e.symtab)[n];
      if ok then SymbolInside(image, e, p) && mapper.cur == mapper.items.Length && !grant(n)
      else !SymbolInside(image, e, p)
    ensures n == |Offsets(e, e.symtab)| ==> ok
  {
    hide Field, Offsets, Stored, CString, Terminated, NonEmpty, SymbolsAt;
    ghost var offs := Offsets(e, e.symtab);
    var p, k: nat, more := e.symtab, 0, true;
    assert Stored(mapper.Items(), old(mapper.Items()), image, e, offs[..0]) by {
      NothingStored(mapper.Items(), image, e, offs);
    }
    assert 0 < |offs| by { OffsetsShape(e, e.symtab); }
    while more
      invariant 0 <= k <= |offs| && (more <==> k < |offs|) && p == e.symtab + SYM_SIZE * k
      invariant mapper.Valid() && (mapper.items == old(mapper.items) || fresh(mapper.items))
      invariant Stored(mapper.Items(), old(mapper.Items()), image, e, offs[..k])
      decreases |offs| - k
    {
      OffsetsStep(e, e.symtab, k);
      if p + SYM_SIZE > |image| {
        return false, k;
      }
      var size := SymbolField(image, p + 16);
      ghost var before := mapper.Items();
      if size != 0 {
        var inside, name := CopyName(image, NameAt(image, e, p));
        if !inside {
          return false, k;
        }
        var ret := mapper.InsertMapper(name, SymbolField(image, p + 8), size, grant(k));
        if ret == -1 {
          return true, k;
        }
      }
      StoredStep(before, old(mapper.Items()), image, e, offs, k);
      p, k := p + SYM_SIZE, k + 1;
      more := p < e.symtabEnd;
    }
    return true, k;
  }

  lemma NothingStored(items: seq<Item>, image: seq<byte>, e: Object, offs: seq<nat>)
    ensures Stored(items, items, image, e, offs[..0])
  {
    assert items + [] == items;
  }

  // ---------------------------------------------------------------- end to end

  /** Symbol `t` of non-zero size contains `ip`.  A range that reaches the end of the
      address space is never found. */
  ghost predicate Contains(t: Item, ip: int) {
    t.size != 0 && t.ip <= ip < t.ip + t.size < TWO64
  }

  ghost predicate FirstAt(s: seq<Item>, ip: int, k: nat) {
    k < |s| && Contains(s[k], ip) && forall j :: 0 <= j < k ==> !Contains(s[j], ip)
  }

  /** `r` names the first symbol that contains `ip`, or there is none. */
  ghost predicate FirstContaining(s: seq<Item>, ip: int, r: Lookup) {
    match r
    case Null => forall k :: 0 <= k < |s| ==> !Contains(s[k], ip)
    case Name(name) =>
      exists k :: 0 <= k < |s| && name == s[k].name && FirstAt(s, ip, k)
  }

  /** Skipping empty symbols and searching the rest in order finds the first symbol of
      the table that contains the address. */
  lemma {:induction false} LookupInTable(s: seq<Item>, ip: ulong)
    ensures FirstContaining(s, ip, FirstMatch(NonEmpty(s), ip))
  {
    if s != [] {
      var t := s[1..];
      LookupInTable(t, ip);
      MatchesExactly(s[0], ip);
      if s[0].size != 0 {
        assert NonEmpty(s)[0] == s[0] && NonEmpty(s)[1..] == NonEmpty(t);
      } else {
        assert NonEmpty(s) == NonEmpty(t);
      }
      if Contains(s[0], ip) {
        assert FirstAt(s, ip, 0);
      } else {
        Shifted(s, ip, FirstMatch(NonEmpty(t), ip));
      }
    }
  }

  /** The wrapped range test. */
  lemma MatchesExactly(t: Item, ip: ulong)
    ensures Contains(t, ip) <==> t.size != 0 && Matches(t, ip)
  {
    if t.ip + t.size >= TWO64 {
      assert (t.ip + t.size) % TWO64 == t.ip + t.size - TWO64;
    }
  }

  /** A symbol that covers the last sixteen addresses is stored and never found, not even
      for an address in the middle of it. */
  lemma TopSymbolMissed(name: Name, ip: ulong)
    ensures var t := Item(name, TWO64 - 16, 16);
      NonEmpty([t]) == [t] && FirstMatch([t], ip) == Null && t.ip <= TWO64 - 8 < t.ip + t.size
  {
    var t := Item(name, TWO64 - 16, 16);
    MatchesExactly(t, ip);
    assert [t][1..] == [];
  }

  lemma Shifted(s: seq<Item>, ip: int, r: Lookup)
    requires s != [] && !Contains(s[0], ip) && FirstContaining(s[1..], ip, r)
    ensures FirstContaining(s, ip, r)
  {
    var t := s[1..];
    assert forall k :: 0 <= k < |s| ==> k == 0 || s[k] == t[k - 1];
    if r.Name? {
      var k :| 0 <= k < |t| && r.name == t[k].name && FirstAt(t, ip, k);
      assert FirstAt(s, ip, k + 1);
    }
  }

  /** Section `k` is the symbol table that counts, and every symbol the loop visits in it
      can be read. */
  ghost predicate Loads(image: seq<byte>, k: nat)
    requires IsElf(image)
  {
    && HeadersInside(image) && LastSymtab(image, SectionCount(image), k)
    && AllInside(image, ObjectOf(image, k), Offsets(ObjectOf(image, k), ObjectOf(image, k).symtab))
  }

  /** `r` is the name of the first visited symbol whose range contains `ip`, or NULL if
      there is none. */
  ghost predicate Answers(image: seq<byte>, k: nat, ip: ulong, r: Lookup)
    requires IsElf(image)
  {
    && Loads(image, k)
    && var e := ObjectOf(image, k);
      && FirstContaining(SymbolsAt(image, e, Offsets(e, e.symtab)), ip, r)
      && (r.Name? ==> exists j: nat :: Names(image, e, e.symtab + SYM_SIZE * j, ip, r.name))
  }

  /** The symbol at offset `p` contains `ip`, and its name in the string table is `name`. */
  ghost predicate Names(image: seq<byte>, e: Object, p: nat, ip: ulong, name: seq<byte>) {
    && p + SYM_SIZE <= |image|
    && SymbolField(image, p + 8) <= ip < SymbolField(image, p + 8) + SymbolField(image, p + 16)
    && Spells(image, NameAt(image, e, p), name)
  }

  lemma AnswerNames(image: seq<byte>, e: Object, ip: ulong, r: Lookup)
    requires AllInside(image, e, Offsets(e, e.symtab)) && r.Name?
    requires FirstContaining(SymbolsAt(image, e, Offsets(e, e.symtab)), ip, r)
    ensures exists j: nat :: Names(image, e, e.symtab + SYM_SIZE * j, ip, r.name)
  {
    hide Offsets, Field, Terminated, CString;
    var s := SymbolsAt(image, e, Offsets(e, e.symtab));
    var k: nat :| k < |s| && r.name == s[k].name && FirstAt(s, ip, k);
    OffsetsShape(e, e.symtab);
    assert Names(image, e, e.symtab + SYM_SIZE * k, ip, r.name);
  }

  /** Symbol lookup end to end, as in the first call of `jsys_encrypt_stack`, with every
      allocation granted: a new table is filled from the executable and the caller's
      address is looked up in it.  `ok` is false when reading the image faults or there
      is no static symbol table to read. */
  method FunctionAt(image: seq<byte>, ip: ulong) returns (ok: bool, r: Lookup)
    ensures !IsElf(image) ==> ok && r == Null
    ensures IsElf(image) ==> (ok <==> exists k :: Loads(image, k))
    ensures IsElf(image) && ok ==> exists k :: Answers(image, k, ip, r)
  {
    hide Field, Offsets, NonEmpty, FirstMatch, FirstContaining, SymbolsAt, SectionInside;
    r := Null;
    var mapper := new Table(8);
    var elf := ElfOpen(image);
    match elf
    case Failed =>
      NothingFound(ip);
      r := mapper.GetFuncName(ip);
      return true, r;
    case Fault =>
      return false, r;
    case Open(found, e) =>
      if !found {
        return false, r;
      }
      ghost var k :| LastSymtab(image, SectionCount(image), k) && e == ObjectOf(image, k);
      ghost var n;
      ok, n := Parse(image, e, mapper, _ => true);
      ghost var offs := Offsets(e, e.symtab);
      if !ok {
        assert !AllInside(image, e, offs) by { assert !SymbolInside(image, e, offs[n]); }
        assert forall j: nat :: Loads(image, j) ==> j == k;
        return;
      }
      assert offs[..n] == offs;
      assert Loads(image, k);
      assert [] + NonEmpty(SymbolsAt(image, e, offs)) == NonEmpty(SymbolsAt(image, e, offs));
      LookupInTable(SymbolsAt(image, e, offs), ip);
      r := mapper.GetFuncName(ip);
      if r.Name? {
        AnswerNames(image, e, ip, r);
      }
      assert Answers(image, k, ip, r);
  }

  lemma NothingFound(ip: ulong)
    ensures FirstMatch([], ip) == Null
  {
  }

  // ------------------------------------------------------------------- layout

  /** A structure without padding: fields of the given widths, one after the other. */
  ghost function Pack(widths: seq<nat>, values: seq<nat>): (b: seq<byte>)
    requires |widths| == |values|
  {
    if widths == [] then [] else Encode(values[0], widths[0]) + Pack(widths[1..], values[1..])
  }

  function Before(widths: seq<nat>, k: nat): (n: nat)
    requires k <= |widths|
  {
    if k == 0 then 0 else Before(widths, k - 1) + widths[k - 1]
  }

  lemma {:induction false} BeforeRest(widths: seq<nat>, k: nat)
    requires 0 < k <= |widths|
    ensures Before(widths, k) == widths[0] + Before(widths[1..], k - 1)
  {
    if k > 1 {
      BeforeRest(widths, k - 1);
    }
  }

  lemma {:induction false} PackedField(widths: seq<nat>, values: seq<nat>, k: nat)
    requires k < |widths| == |values|
    ensures var o, b := Before(widths, k), Pack(widths, values);
      o + widths[k] <= |b| && b[o..o + widths[k]] == Encode(values[k], widths[k])
  {
    var first, rest := Encode(values[0], widths[0]), Pack(widths[1..], values[1..]);
    if k > 0 {
      PackedField(widths[1..], values[1..], k - 1);
      BeforeRest(widths, k);
      var o, w := Before(widths[1..], k - 1), widths[k];
      assert (first + rest)[|first| + o..|first| + o + w] == rest[o..o + w];
    }
  }

  /** The image has a structure with these fields at offset `o`, every value fitting. */
  ghost predicate HasStruct(image: seq<byte>, o: nat, widths: seq<nat>, values: seq<nat>) {
    && |widths| == |values| && (forall k :: 0 <= k < |widths| ==> values[k] < Limit(widths[k]))
    && var b := Pack(widths, values); o + |b| <= |image| && image[o..o + |b|] == b
  }

  lemma FieldReadsBack(image: seq<byte>, o: nat, widths: seq<nat>, values: seq<nat>, k: nat)
    requires HasStruct(image, o, widths, values) && k < |widths|
    ensures var p := o + Before(widths, k); p + widths[k] <= |image| && Field(image, p, widths[k]) == values[k]
  {
    hide Pack, Before, Encode, Decode, Limit;
    var b, p, w := Pack(widths, values), Before(widths, k), widths[k];
    PackedField(widths, values, k);
    SubSlice(image, o, |b|, p, w);
    LoadAfterStore(values[k], w);
  }

  datatype FileHeader = FileHeader(ident: nat, kind: nat, machine: nat, version: nat, entry: nat, phoff: nat,
    shoff: nat, flags: nat, ehsize: nat, phentsize: nat, phnum: nat, shentsize: nat, shnum: nat, shstrndx: nat)

  datatype SectionHeader = SectionHeader(name: nat, kind: nat, flags: nat, addr: nat, offset: nat, size: nat,
    link: nat, info: nat, align: nat, entsize: nat)

  datatype SymbolEntry = SymbolEntry(name: nat, info: nat, other: nat, shndx: nat, value: nat, size: nat)

  const EHDR: seq<nat> := [16, 2, 2, 4, 8, 8, 8, 4, 2, 2, 2, 2, 2, 2]
  const SHDR: seq<nat> := [4, 4, 8, 8, 8, 8, 4, 4, 8, 8]
  const SYM: seq<nat> := [4, 1, 1, 2, 8, 8]

  /** Where the fields that are read begin. */
  lemma Layout()
    ensures Before(EHDR, 6) == 40 && Before(EHDR, 12) == 60
    ensures Before(SHDR, 1) == 4 && Before(SHDR, 4) == 24 && Before(SHDR, 5) == 32 && Before(SHDR, 6) == 40
    ensures Before(SYM, 0) == 0 && Before(SYM, 4) == 8 && Before(SYM, 5) == 16
  {
  }

  /** The sizes of the three structures. */
  lemma StructSizes()
    ensures Before(EHDR, |EHDR|) == EHDR_SIZE && Before(SHDR, |SHDR|) == SHDR_SIZE && Before(SYM, |SYM|) == SYM_SIZE
  {
    Layout();
    assert Before(EHDR, 14) == 64;
    assert Before(SHDR, 8) == 48 && Before(SHDR, 10) == 64;
    assert Before(SYM, 6) == 24;
  }

  ghost predicate HasFileHeader(image: seq<byte>, h: FileHeader) {
    HasStruct(image, 0, EHDR, [h.ident, h.kind, h.machine, h.version, h.entry, h.phoff, h.shoff, h.flags,
                               h.ehsize, h.phentsize, h.phnum, h.shentsize, h.shnum, h.shstrndx])
  }

  ghost predicate HasSectionHeader(image: seq<byte>, o: nat, h: SectionHeader) {
    HasStruct(image, o, SHDR, [h.name, h.kind, h.flags, h.addr, h.offset, h.size, h.link, h.info, h.align, h.entsize])
  }

  ghost predicate HasSymbol(image: seq<byte>, o: nat, h: SymbolEntry) {
    HasStruct(image, o, SYM, [h.name, h.info, h.other, h.shndx, h.value, h.size])
  }

  /** The file header is read as it was written. */
  lemma FileHeaderReadsBack(image: seq<byte>, h: FileHeader, i: nat)
    requires IsElf(image) && HasFileHeader(image, h)
    ensures SectionCount(image) == h.shnum && SectionAt(image, i) == h.shoff + 64 * i
  {
    var values := [h.ident, h.kind, h.machine, h.version, h.entry, h.phoff, h.shoff, h.flags,
                   h.ehsize, h.phentsize, h.phnum, h.shentsize, h.shnum, h.shstrndx];
    hide HasStruct, Field, Before, IsElf;
    Layout();
    FieldReadsBack(image, 0, EHDR, values, 6);
    FieldReadsBack(image, 0, EHDR, values, 12);
  }

  /** A section header is read as it was written; it names a static symbol table if and
      only if its type is 2. */
  lemma SectionReadsBack(image: seq<byte>, i: nat, h: SectionHeader)
    requires HasSection(image, i) && HasSectionHeader(image, SectionAt(image, i), h)
    ensures SectionType(image, i) == h.kind && SectionOffset(image, i) == h.offset
    ensures SectionSize(image, i) == h.size && SectionLink(image, i) == h.link
    ensures IsSymtab(image, i) <==> h.kind == 2 && HasSection(image, h.link)
  {
    var o := SectionAt(image, i);
    var values := [h.name, h.kind, h.flags, h.addr, h.offset, h.size, h.link, h.info, h.align, h.entsize];
    hide HasStruct, Field, Before, IsElf;
    Layout();
    FieldReadsBack(image, o, SHDR, values, 1);
    FieldReadsBack(image, o, SHDR, values, 4);
    FieldReadsBack(image, o, SHDR, values, 5);
    FieldReadsBack(image, o, SHDR, values, 6);
  }

  /** So are the bounds of the symbol table and the start of its string table. */
  lemma ObjectReadsBack(image: seq<byte>, i: nat, h: SectionHeader, g: SectionHeader)
    requires HasSection(image, i) && HasSectionHeader(image, SectionAt(image, i), h) && h.kind == 2
    requires HasSection(image, h.link) && HasSectionHeader(image, SectionAt(image, h.link), g)
    ensures IsSymtab(image, i) && ObjectOf(image, i) == Object(h.offset, h.offset + h.size, g.offset)
  {
    hide HasSectionHeader, HasSection, SectionAt, SectionType, SectionOffset, SectionSize, SectionLink;
    SectionReadsBack(image, i, h);
    SectionReadsBack(image, h.link, g);
  }

  /** A symbol is read as it was written, with its name from the string table. */
  lemma SymbolReadsBack(image: seq<byte>, e: Object, p: nat, h: SymbolEntry, name: seq<byte>)
    requires p + SYM_SIZE <= |image| && HasSymbol(image, p, h) && h.size != 0
    requires Spells(image, e.strtab + h.name, name)
    ensures h.value < TWO64 && h.size < TWO64 && SymbolInside(image, e, p)
    ensures Symbol(image, e, p) == Item(name, h.value, h.size)
  {
    var values := [h.name, h.info, h.other, h.shndx, h.value, h.size];
    hide HasStruct, Field, Before, CString, Spells, Terminated;
    Layout();
    FieldReadsBack(image, p, SYM, values, 0);
    FieldReadsBack(image, p, SYM, values, 4);
    FieldReadsBack(image, p, SYM, values, 5);
    FieldIsUlong(image, p + 8);
    FieldIsUlong(image, p + 16);
    SpellsTerminated(image, e.strtab + h.name, name);
  }

  lemma SpellsTerminated(image: seq<byte>, o: nat, name: seq<byte>)
    requires Spells(image, o, name)
    ensures Terminated(image, o) && CString(image, o) == name
  {
    assert Terminated(image, o);
    hide Spells, CString;
    SpellsUnique(image, o, name, CString(image, o));
  }
}
