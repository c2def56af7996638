/** The save container: its on-disk image, serialize, deserialize, and what survives the trip. */
module SaveContainer {
  import opened Bytes
  import Crc32

  const MAGIC: nat := 0x5441_4453
  const VERSION: nat := 1
  const HEADER: nat := 496
  const ENTRY: nat := 88

  /** Strings and payloads are byte strings; a name may hold any byte. */
  datatype Entry = Entry(name: seq<byte>, data: seq<byte>, flags: nat)

  datatype Container = Container(titleId: nat, titleName: seq<byte>, subtitle: seq<byte>, detail: seq<byte>,
                                 createdAt: nat, modifiedAt: nat, entries: seq<Entry>)

  /** The widths of the integer members. */
  ghost predicate Typed(c: Container) {
    && c.titleId < TWO64 && c.createdAt < TWO64 && c.modifiedAt < TWO64
    && forall i :: 0 <= i < |c.entries| ==> c.entries[i].flags < TWO32 && |c.entries[i].data| < TWO64
  }

  // ---- strings in fixed fields ----

  /** The part of a string that fits its field, leaving room for the terminator. */
  function Fitting(s: seq<byte>, cap: nat): (t: seq<byte>)
    requires cap > 0
    ensures t <= s && |t| < cap
  {
    if |s| <= cap - 1 then s else s[..cap - 1]
  }

  /** A string is cut to the capacity minus one, its first bytes kept. */
  lemma FittingIs(s: seq<byte>, cap: nat)
    requires cap > 0
    ensures |s| < cap ==> Fitting(s, cap) == s
    ensures |s| >= cap ==> |Fitting(s, cap)| == cap - 1 && forall i :: 0 <= i < cap - 1 ==> Fitting(s, cap)[i] == s[i]
  {
  }

  /** What copyStr leaves in a zeroed field. */
  function Field(s: seq<byte>, cap: nat): (f: seq<byte>)
    requires cap > 0
    ensures |f| == cap
  {
    Fitting(s, cap) + Zeros(cap - |Fitting(s, cap)|)
  }

  method CopyStr(cap: nat, s: seq<byte>) returns (dst: seq<byte>)
    requires cap > 0
    ensures dst == Field(s, cap)
  {
    var n := if cap - 1 < |s| then cap - 1 else |s|;
    dst := Zeros(cap);
    dst := Store(dst, 0, s[..n]);
    dst := dst[n := 0];
    assert s[..n] == Fitting(s, cap);
    assert dst[..n] == s[..n] by {
      assert forall i :: 0 <= i < n ==> dst[i] == Load(Store(Zeros(cap), 0, s[..n]), 0, n)[i];
    }
  }

  /** The prefix before the first NUL. */
  function CStr(f: seq<byte>): (s: seq<byte>)
    ensures s <= f && 0 !in s
    ensures |s| < |f| ==> f[|s|] == 0
  {
    if f == [] || f[0] == 0 then [] else [f[0]] + CStr(f[1..])
  }

  method ReadStr(src: seq<byte>) returns (s: seq<byte>)
    ensures s == CStr(src)
  {
    var n := 0;
    while n < |src| && src[n] != 0
      invariant 0 <= n <= |src| && forall i :: 0 <= i < n ==> src[i] != 0
    {
      n := n + 1;
    }
    s := src[..n];
    CStrUnique(src, n);
  }

  lemma {:induction false} CStrUnique(f: seq<byte>, n: nat)
    requires n <= |f| && (forall i :: 0 <= i < n ==> f[i] != 0) && (n < |f| ==> f[n] == 0)
    ensures CStr(f) == f[..n]
  {
    if n > 0 {
      CStrUnique(f[1..], n - 1);
      assert f[..n] == [f[0]] + f[1..][..n - 1];
    }
  }

  /** What a string becomes after a write and a read: cut at the field's capacity and at its first NUL. */
  function Kept(s: seq<byte>, cap: nat): seq<byte>
    requires cap > 0
  {
    CStr(Fitting(s, cap))
  }

  lemma FieldReads(s: seq<byte>, cap: nat)
    requires cap > 0
    ensures CStr(Field(s, cap)) == Kept(s, cap)
  {
    var t := Fitting(s, cap);
    CStrUnique(Field(s, cap), |CStr(t)|);
  }

  /** Nothing but NULs after the first NUL of the part that fits. */
  ghost predicate CleanTail(s: seq<byte>, cap: nat)
    requires cap > 0
  {
    forall i :: |Kept(s, cap)| <= i < |Fitting(s, cap)| ==> Fitting(s, cap)[i] == 0
  }

  /** Writing the string read back gives the same field exactly when no byte was hidden behind a NUL. */
  lemma FieldStableIff(s: seq<byte>, cap: nat)
    requires cap > 0
    ensures Field(Kept(s, cap), cap) == Field(s, cap) <==> CleanTail(s, cap)
  {
    var t, k := Fitting(s, cap), Kept(s, cap);
    assert Fitting(k, cap) == k;
    assert forall i :: 0 <= i < |k| ==> k[i] == t[i];
    if Field(k, cap) == Field(s, cap) {
      forall i | |k| <= i < |t| ensures t[i] == 0 {
        assert Field(s, cap)[i] == t[i] && Field(k, cap)[i] == 0;
      }
    }
    if CleanTail(s, cap) {
      forall i | 0 <= i < cap ensures Field(k, cap)[i] == Field(s, cap)[i] {
      }
    }
  }

  // ---- the image ----

  function Total(es: seq<Entry>): nat {
    if es == [] then 0 else Total(es[..|es| - 1]) + |es[|es| - 1].data|
  }

  function Payload(es: seq<Entry>): (p: seq<byte>)
    ensures |p| == Total(es)
  {
    if es == [] then [] else Payload(es[..|es| - 1]) + es[|es| - 1].data
  }

  function Concat(parts: seq<seq<byte>>): seq<byte> {
    if parts == [] then [] else parts[0] + Concat(parts[1..])
  }

  function EntryParts(e: Entry, offset: nat): seq<seq<byte>> {
    [LE(offset, 8), LE(|e.data|, 8), LE(e.flags, 4), LE(0, 4), Field(e.name, 64)]
  }

  function HeaderParts(c: Container): seq<seq<byte>> {
    [LE(MAGIC, 4), LE(VERSION, 4), LE(c.titleId, 8), LE(c.createdAt, 8), LE(c.modifiedAt, 8),
     LE(|c.entries| % TWO32, 4), LE(0, 4), Field(c.titleName, 64), Field(c.subtitle, 128), Field(c.detail, 256),
     LE(Total(c.entries) % TWO32, 4), WordLE(Crc32.Crc(Payload(c.entries)))]
  }

  /** The entry descriptors, each with the number of payload bytes before it. */
  function Table(es: seq<Entry>): seq<byte> {
    if es == [] then []
    else Table(es[..|es| - 1]) + Concat(EntryParts(es[|es| - 1], Total(es[..|es| - 1])))
  }

  function Image(c: Container): seq<byte> {
    Concat(HeaderParts(c)) + Table(c.entries) + Payload(c.entries)
  }

  method Serialize(c: Container) returns (out: seq<byte>)
    requires Typed(c)
    ensures out == Image(c)
  {
    hide Crc32.Crc, LE, Field, WordLE;
    var titleName := CopyStr(64, c.titleName);
    var subtitle := CopyStr(128, c.subtitle);
    var detail := CopyStr(256, c.detail);
    var table: seq<byte> := [];
    var payload: seq<byte> := [];
    var offset := 0;
    for i := 0 to |c.entries|
      invariant table == Table(c.entries[..i]) && payload == Payload(c.entries[..i])
      invariant offset == Total(c.entries[..i])
    {
      var e := c.entries[i];
      assert c.entries[..i + 1][..i] == c.entries[..i];
      var name := CopyStr(64, e.name);
      table := table + Concat([LE(offset, 8), LE(|e.data|, 8), LE(e.flags, 4), LE(0, 4), name]);
      payload := payload + e.data;
      offset := offset + |e.data|;
    }
    assert c.entries[..|c.entries|] == c.entries;
    var crc := Crc32.ComputeCrc(payload);
    var header := Concat([LE(MAGIC, 4), LE(VERSION, 4), LE(c.titleId, 8), LE(c.createdAt, 8), LE(c.modifiedAt, 8),
                          LE(|c.entries| % TWO32, 4), LE(0, 4), titleName, subtitle, detail,
                          LE(|payload| % TWO32, 4), WordLE(crc)]);
    out := header + table + payload;
  }

  // ---- reading an image ----

  /** `OutOfBounds`: the 64-bit sum offset + size wrapped and passed the check. The source then asks for a vector of
      `size` bytes, which throws when no vector can be that long, and otherwise copies from before the payload. */
  datatype Result<T> = Parsed(value: T) | Rejected | OutOfBounds

  function U32(bytes: seq<byte>, at: nat): (n: nat)
    requires at + 4 <= |bytes|
    ensures n < TWO32
  {
    Pow256Values();
    FromLE(Load(bytes, at, 4))
  }

  function Str(bytes: seq<byte>, at: nat, cap: nat): seq<byte>
    requires at + cap <= |bytes|
  {
    CStr(Load(bytes, at, cap))
  }

  function DecodeEntry(bytes: seq<byte>, at: nat, payload: seq<byte>): Result<Entry>
    requires at + ENTRY <= |bytes|
  {
    var offset, size := LoadU64(bytes, at), LoadU64(bytes, at + 8);
    if (offset + size) % TWO64 > |payload| then Rejected
    else if offset + size > |payload| then OutOfBounds
    else Parsed(Entry(Str(bytes, at + 24, 64), payload[offset..offset + size], U32(bytes, at + 16)))
  }

  /** The first n descriptors; the first bad one decides. */
  function DecodeEntries(bytes: seq<byte>, payload: seq<byte>, n: nat): (r: Result<seq<Entry>>)
    requires HEADER + n * ENTRY <= |bytes|
    ensures r.Parsed? ==> |r.value| == n
  {
    if n == 0 then Parsed([])
    else
      match DecodeEntries(bytes, payload, n - 1)
      case Parsed(es) =>
        (match DecodeEntry(bytes, HEADER + (n - 1) * ENTRY, payload)
         case Parsed(e) => Parsed(es + [e])
         case Rejected => Rejected
         case OutOfBounds => OutOfBounds)
      case bad => bad
  }

  function Decode(bytes: seq<byte>): Result<Container> {
    if |bytes| < HEADER || U32(bytes, 0) != MAGIC || U32(bytes, 4) != VERSION then Rejected
    else
      var count, size := U32(bytes, 32), U32(bytes, 488);
      var start := HEADER + count * ENTRY;
      if start + size > |bytes| then Rejected
      else
        var payload := Load(bytes, start, size);
        if Crc32.Crc(payload) != WordFromLE(Load(bytes, 492, 4)) then Rejected
        else
          match DecodeEntries(bytes, payload, count)
          case Parsed(es) =>
            Parsed(Container(LoadU64(bytes, 8), Str(bytes, 40, 64), Str(bytes, 104, 128), Str(bytes, 232, 256),
                             LoadU64(bytes, 16), LoadU64(bytes, 24), es))
          case Rejected => Rejected
          case OutOfBounds => OutOfBounds
  }

  /** One descriptor and the data it points to. */
  method ReadEntry(bytes: seq<byte>, at: nat, payload: seq<byte>) returns (r: Result<Entry>)
    requires at + ENTRY <= |bytes|
    ensures r == DecodeEntry(bytes, at, payload)
  {
    hide U32, LoadU64, CStr;
    var offset, len := LoadU64(bytes, at), LoadU64(bytes, at + 8);
    if (offset + len) % TWO64 > |payload| {
      return Rejected;
    }
    if offset + len > |payload| {
      return OutOfBounds;
    }
    var name := ReadStr(Load(bytes, at + 24, 64));
    r := Parsed(Entry(name, payload[offset..offset + len], U32(bytes, at + 16)));
  }

  method Deserialize(bytes: seq<byte>) returns (r: Result<Container>)
    ensures r == Decode(bytes)
  {
    hide Crc32.Crc, U32, LoadU64, WordFromLE, CStr, DecodeEntry;
    if |bytes| < HEADER {
      return Rejected;
    }
    if U32(bytes, 0) != MAGIC {
      return Rejected;
    }
    if U32(bytes, 4) != VERSION {
      return Rejected;
    }
    var count, size := U32(bytes, 32), U32(bytes, 488);
    var entriesBytes := count * ENTRY;
    if HEADER + entriesBytes + size > |bytes| {
      return Rejected;
    }
    var titleName := ReadStr(Load(bytes, 40, 64));
    var subtitle := ReadStr(Load(bytes, 104, 128));
    var detail := ReadStr(Load(bytes, 232, 256));
    var payload := Load(bytes, HEADER + entriesBytes, size);
    var crc := Crc32.ComputeCrc(payload);
    if crc != WordFromLE(Load(bytes, 492, 4)) {
      return Rejected;
    }
    var es: seq<Entry> := [];
    for i := 0 to count
      invariant DecodeEntries(bytes, payload, i) == Parsed(es)
    {
      var at := HEADER + i * ENTRY;
      EntriesPrefix(bytes, payload, i + 1, count);
      var e := ReadEntry(bytes, at, payload);
      if e.Rejected? {
        return Rejected;
      }
      if e.OutOfBounds? {
        return OutOfBounds;
      }
      es := es + [e.value];
    }
    r := Parsed(Container(LoadU64(bytes, 8), titleName, subtitle, detail, LoadU64(bytes, 16), LoadU64(bytes, 24), es));
  }

  lemma {:induction false} EntriesPrefix(bytes: seq<byte>, payload: seq<byte>, i: nat, n: nat)
    requires i <= n && HEADER + n * ENTRY <= |bytes|
    ensures !DecodeEntries(bytes, payload, i).Parsed? ==>
              DecodeEntries(bytes, payload, n) == DecodeEntries(bytes, payload, i)
  {
    if i < n {
      EntriesPrefix(bytes, payload, i, n - 1);
    }
  }
}
