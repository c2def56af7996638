/** Round trips, tiling and corruption detection for the save container. */
module SaveContainerProofs {
  import opened Bytes
  import opened SaveContainer
  import Crc32

  // ---- where the parts of a concatenation are ----

  function Start(parts: seq<seq<byte>>, i: nat): nat
    requires i <= |parts|
  {
    if i == 0 then 0 else |parts[0]| + Start(parts[1..], i - 1)
  }

  lemma {:induction false} StartStep(parts: seq<seq<byte>>, i: nat)
    requires i < |parts|
    ensures Start(parts, i + 1) == Start(parts, i) + |parts[i]|
    decreases i
  {
    if i > 0 {
      StartStep(parts[1..], i - 1);
    }
  }

  lemma {:induction false} PartAt(parts: seq<seq<byte>>, i: nat)
    requires i < |parts|
    ensures Start(parts, i) + |parts[i]| <= |Concat(parts)|
    ensures Load(Concat(parts), Start(parts, i), |parts[i]|) == parts[i]
    decreases i
  {
    var n := |parts[0]|;
    if i > 0 {
      PartAt(parts[1..], i - 1);
      var at := Start(parts[1..], i - 1);
      assert Concat(parts)[n..] == Concat(parts[1..]);
      assert Load(Concat(parts), n + at, |parts[i]|) == Load(Concat(parts[1..]), at, |parts[i]|);
    }
  }

  lemma {:induction false} ConcatLength(parts: seq<seq<byte>>)
    ensures |Concat(parts)| == Start(parts, |parts|)
  {
    if parts != [] {
      ConcatLength(parts[1..]);
    }
  }

  lemma LoadPrefix(a: seq<byte>, b: seq<byte>, at: nat, n: nat)
    requires at + n <= |a|
    ensures Load(a + b, at, n) == Load(a, at, n)
  {
  }

  lemma LoadSuffix(a: seq<byte>, b: seq<byte>, at: nat, n: nat)
    requires at + n <= |b|
    ensures Load(a + b, |a| + at, n) == Load(b, at, n)
  {
  }

  lemma HeaderLayout(c: Container)
    ensures var p := HeaderParts(c);
            && |p| == 12 && |Concat(p)| == HEADER
            && Load(Concat(p), 0, 4) == p[0] && Load(Concat(p), 4, 4) == p[1]
            && Load(Concat(p), 8, 8) == p[2] && Load(Concat(p), 16, 8) == p[3] && Load(Concat(p), 24, 8) == p[4]
            && Load(Concat(p), 32, 4) == p[5] && Load(Concat(p), 36, 4) == p[6]
            && Load(Concat(p), 40, 64) == p[7] && Load(Concat(p), 104, 128) == p[8] && Load(Concat(p), 232, 256) == p[9]
            && Load(Concat(p), 488, 4) == p[10] && Load(Concat(p), 492, 4) == p[11]
  {
    hide Concat, LE, Field, WordLE, Crc32.Crc, Payload, Total;
    var p := HeaderParts(c);
    TwelveStarts(p);
    ConcatLength(p);
    PartAt(p, 0);
    PartAt(p, 1);
    PartAt(p, 2);
    PartAt(p, 3);
    PartAt(p, 4);
    PartAt(p, 5);
    PartAt(p, 6);
    PartAt(p, 7);
    PartAt(p, 8);
    PartAt(p, 9);
    PartAt(p, 10);
    PartAt(p, 11);
  }

  lemma TwelveStarts(p: seq<seq<byte>>)
    requires |p| == 12 && |p[0]| == |p[1]| == 4 && |p[2]| == |p[3]| == |p[4]| == 8 && |p[5]| == |p[6]| == 4
    requires |p[7]| == 64 && |p[8]| == 128 && |p[9]| == 256 && |p[10]| == |p[11]| == 4
    ensures Start(p, 0) == 0 && Start(p, 1) == 4 && Start(p, 2) == 8 && Start(p, 3) == 16 && Start(p, 4) == 24
    ensures Start(p, 5) == 32 && Start(p, 6) == 36 && Start(p, 7) == 40 && Start(p, 8) == 104 && Start(p, 9) == 232
    ensures Start(p, 10) == 488 && Start(p, 11) == 492 && Start(p, 12) == 496
  {
    assert Start(p, 0) == 0;
    hide Start;
    StartStep(p, 0);
    StartStep(p, 1);
    StartStep(p, 2);
    StartStep(p, 3);
    StartStep(p, 4);
    StartStep(p, 5);
    StartStep(p, 6);
    StartStep(p, 7);
    StartStep(p, 8);
    StartStep(p, 9);
    StartStep(p, 10);
    StartStep(p, 11);
  }

  lemma EntryLayout(e: Entry, offset: nat)
    ensures var p := EntryParts(e, offset);
            && |Concat(p)| == ENTRY
            && Load(Concat(p), 0, 8) == p[0] && Load(Concat(p), 8, 8) == p[1] && Load(Concat(p), 16, 4) == p[2]
            && Load(Concat(p), 20, 4) == p[3] && Load(Concat(p), 24, 64) == p[4]
  {
    hide Concat, LE, Field;
    var p := EntryParts(e, offset);
    FiveStarts(p);
    ConcatLength(p);
    PartAt(p, 0);
    PartAt(p, 1);
    PartAt(p, 2);
    PartAt(p, 3);
    PartAt(p, 4);
  }

  lemma FiveStarts(p: seq<seq<byte>>)
    requires |p| == 5 && |p[0]| == |p[1]| == 8 && |p[2]| == |p[3]| == 4 && |p[4]| == 64
    ensures Start(p, 0) == 0 && Start(p, 1) == 8 && Start(p, 2) == 16 && Start(p, 3) == 20
    ensures Start(p, 4) == 24 && Start(p, 5) == 88
  {
    assert Start(p, 0) == 0;
    hide Start;
    StartStep(p, 0);
    StartStep(p, 1);
    StartStep(p, 2);
    StartStep(p, 3);
    StartStep(p, 4);
  }

  // ---- the table and the payload ----

  lemma {:induction false} TableEntry(es: seq<Entry>, i: nat)
    requires i < |es|
    ensures |Table(es)| == |es| * ENTRY
    ensures Load(Table(es), i * ENTRY, ENTRY) == Concat(EntryParts(es[i], Total(es[..i])))
    decreases |es|
  {
    hide Concat, LE, Field, EntryParts;
    var n := |es| - 1;
    TableLength(es[..n]);
    EntryLayout(es[n], Total(es[..n]));
    var last := Concat(EntryParts(es[n], Total(es[..n])));
    if i < n {
      TableEntry(es[..n], i);
      assert es[..n][..i] == es[..i];
      LoadPrefix(Table(es[..n]), last, i * ENTRY, ENTRY);
    } else {
      LoadSuffix(Table(es[..n]), last, 0, ENTRY);
    }
  }

  lemma {:induction false} TableLength(es: seq<Entry>)
    ensures |Table(es)| == |es| * ENTRY
  {
    hide Concat, LE, Field, EntryParts;
    if es != [] {
      TableLength(es[..|es| - 1]);
      EntryLayout(es[|es| - 1], Total(es[..|es| - 1]));
    }
  }

  lemma PayloadLast(es: seq<Entry>)
    requires es != []
    ensures var init, last := es[..|es| - 1], es[|es| - 1];
            Payload(es) == Payload(init) + last.data && Total(es) == Total(init) + |last.data|
  {
  }

  /** The stored offsets tile the payload: entry i lies right after the entries before it. */
  lemma {:induction false} PayloadTiles(es: seq<Entry>, i: nat)
    requires i < |es|
    ensures Total(es[..i]) + |es[i].data| == Total(es[..i + 1]) <= Total(es)
    ensures Load(Payload(es), Total(es[..i]), |es[i].data|) == es[i].data
    decreases |es|
  {
    hide Load, Payload, Total;
    var n := |es| - 1;
    PayloadLast(es);
    assert es[..i + 1][..i] == es[..i];
    if i < n {
      PayloadTiles(es[..n], i);
      assert es[..n][..i] == es[..i] && es[..n][..i + 1] == es[..i + 1];
      LoadPrefix(Payload(es[..n]), es[n].data, Total(es[..i]), |es[i].data|);
    } else {
      assert es[..i + 1] == es;
      LoadSuffix(Payload(es[..n]), es[n].data, 0, |es[n].data|);
      LoadAll(es[n].data);
    }
  }

  lemma LoadAll(s: seq<byte>)
    ensures Load(s, 0, |s|) == s
  {
  }

  // ---- reading back what was written ----

  /** What a container keeps through its image: everything, with strings cut to their fields. */
  function CutEntries(es: seq<Entry>): (r: seq<Entry>)
    ensures |r| == |es|
  {
    if es == [] then []
    else
      var e := es[|es| - 1];
      CutEntries(es[..|es| - 1]) + [e.(name := Kept(e.name, 64))]
  }

  function Cut(c: Container): Container {
    c.(titleName := Kept(c.titleName, 64), subtitle := Kept(c.subtitle, 128), detail := Kept(c.detail, 256),
       entries := CutEntries(c.entries))
  }

  /** The 32-bit fields of the header can hold the sizes. */
  ghost predicate Fits(c: Container) {
    Typed(c) && |c.entries| < TWO32 && Total(c.entries) < TWO32
  }

  lemma ImageShape(c: Container)
    ensures var header := Concat(HeaderParts(c));
            && |header| == HEADER && |Table(c.entries)| == |c.entries| * ENTRY
            && |Image(c)| == HEADER + |c.entries| * ENTRY + Total(c.entries)
  {
    hide Concat, HeaderParts, Table;
    HeaderLayout(c);
    TableLength(c.entries);
  }

  lemma ImageHeader(c: Container, at: nat, n: nat)
    requires at + n <= HEADER
    ensures |Concat(HeaderParts(c))| == HEADER && at + n <= |Image(c)|
    ensures Load(Image(c), at, n) == Load(Concat(HeaderParts(c)), at, n)
  {
    hide Concat, HeaderParts, Table, Payload;
    ImageShape(c);
    var h, t, p := Concat(HeaderParts(c)), Table(c.entries), Payload(c.entries);
    LoadPrefix(h + t, p, at, n);
    LoadPrefix(h, t, at, n);
  }

  lemma ImageEntry(c: Container, i: nat, at: nat, n: nat)
    requires i < |c.entries| && at + n <= ENTRY
    ensures |Image(c)| == HEADER + |c.entries| * ENTRY + Total(c.entries) && i * ENTRY + ENTRY <= |c.entries| * ENTRY
    ensures |Concat(EntryParts(c.entries[i], Total(c.entries[..i])))| == ENTRY
    ensures Load(Image(c), HEADER + i * ENTRY + at, n) ==
            Load(Concat(EntryParts(c.entries[i], Total(c.entries[..i]))), at, n)
  {
    hide Concat, HeaderParts, EntryParts, Table, Payload;
    ImageShape(c);
    EntryLayout(c.entries[i], Total(c.entries[..i]));
    TableEntry(c.entries, i);
    var h, t, p := Concat(HeaderParts(c)), Table(c.entries), Payload(c.entries);
    LoadPrefix(h + t, p, HEADER + i * ENTRY + at, n);
    LoadSuffix(h, t, i * ENTRY + at, n);
    LoadInner(t, i * ENTRY, ENTRY, at, n);
  }

  lemma LoadInner(t: seq<byte>, a: nat, len: nat, at: nat, n: nat)
    requires a + len <= |t| && at + n <= len
    ensures Load(t, a + at, n) == Load(Load(t, a, len), at, n)
  {
    var inner := Load(t, a, len);
    forall i | 0 <= i < n ensures Load(t, a + at, n)[i] == Load(inner, at, n)[i] {
      assert inner[at + i] == t[a + at + i];
    }
  }

  /** Every field of the header at its place in the image. */
  lemma HeaderFields(c: Container)
    ensures |Image(c)| == 496 + 88 * |c.entries| + Total(c.entries)
    ensures var m := Image(c);
            && m[0..4] == LE(0x5441_4453, 4) && m[4..8] == LE(1, 4)
            && m[8..16] == LE(c.titleId, 8) && m[16..24] == LE(c.createdAt, 8) && m[24..32] == LE(c.modifiedAt, 8)
            && m[32..36] == LE(|c.entries| % TWO32, 4) && m[36..40] == LE(0, 4)
            && m[40..104] == Field(c.titleName, 64) && m[104..232] == Field(c.subtitle, 128)
            && m[232..488] == Field(c.detail, 256) && m[488..492] == LE(Total(c.entries) % TWO32, 4)
            && m[492..496] == WordLE(Crc32.Crc(m[496 + 88 * |c.entries|..]))
  {
    hide Concat, LE, Field, WordLE, Crc32.Crc, Payload, Table, Image;
    HeaderLayout(c);
    ImageShape(c);
    ImagePayload(c);
    ImageHeader(c, 0, 4);
    ImageHeader(c, 4, 4);
    ImageHeader(c, 8, 8);
    ImageHeader(c, 16, 8);
    ImageHeader(c, 24, 8);
    ImageHeader(c, 32, 4);
    ImageHeader(c, 36, 4);
    ImageHeader(c, 40, 64);
    ImageHeader(c, 104, 128);
    ImageHeader(c, 232, 256);
    ImageHeader(c, 488, 4);
    ImageHeader(c, 492, 4);
    var m, start := Image(c), HEADER + |c.entries| * ENTRY;
    assert m[start..] == Load(m, start, Total(c.entries));
  }

  /** Every field of a descriptor, and the payload bytes it names. */
  lemma DescriptorFields(c: Container, i: nat)
    requires i < |c.entries|
    ensures |Image(c)| == 496 + 88 * |c.entries| + Total(c.entries) && 88 * i + 88 <= 88 * |c.entries|
    ensures var m, at, e, offset := Image(c), 496 + 88 * i, c.entries[i], Total(c.entries[..i]);
            && m[at..at + 8] == LE(offset, 8) && m[at + 8..at + 16] == LE(|e.data|, 8)
            && m[at + 16..at + 20] == LE(e.flags, 4) && m[at + 20..at + 24] == LE(0, 4)
            && m[at + 24..at + 88] == Field(e.name, 64)
  {
    hide Concat, LE, Field, Payload, Table, Image, HeaderParts, Total;
    EntryLayout(c.entries[i], Total(c.entries[..i]));
    ImageEntry(c, i, 0, 8);
    ImageEntry(c, i, 8, 8);
    ImageEntry(c, i, 16, 4);
    ImageEntry(c, i, 20, 4);
    ImageEntry(c, i, 24, 64);
  }

  lemma ImagePayload(c: Container)
    ensures |Image(c)| == HEADER + |c.entries| * ENTRY + Total(c.entries)
    ensures Load(Image(c), HEADER + |c.entries| * ENTRY, Total(c.entries)) == Payload(c.entries)
  {
    hide Concat, HeaderParts, Table, Payload;
    ImageShape(c);
    LoadSuffix(Concat(HeaderParts(c)) + Table(c.entries), Payload(c.entries), 0, Total(c.entries));
  }

  lemma DecodeOwnEntry(c: Container, i: nat)
    requires Fits(c) && i < |c.entries|
    ensures HEADER + i * ENTRY + ENTRY <= |Image(c)|
    ensures var e := c.entries[i];
            DecodeEntry(Image(c), HEADER + i * ENTRY, Payload(c.entries)) == Parsed(e.(name := Kept(e.name, 64)))
  {
    hide Concat, HeaderParts, Table, Payload, Image, LE, FromLE, Field, CStr, Kept;
    var e, offset := c.entries[i], Total(c.entries[..i]);
    ImageEntry(c, i, 0, 8);
    ImageEntry(c, i, 8, 8);
    ImageEntry(c, i, 16, 4);
    ImageEntry(c, i, 24, 64);
    EntryLayout(e, offset);
    PayloadTiles(c.entries, i);
    Pow256Values();
    LERoundTrip(offset, 8);
    LERoundTrip(|e.data|, 8);
    LERoundTrip(e.flags, 4);
    FieldReads(e.name, 64);
  }

  lemma {:induction false} DecodeOwnEntries(c: Container, n: nat)
    requires Fits(c) && n <= |c.entries|
    ensures HEADER + n * ENTRY <= |Image(c)|
    ensures DecodeEntries(Image(c), Payload(c.entries), n) == Parsed(CutEntries(c.entries[..n]))
  {
    hide Image, Payload, DecodeEntry, Kept;
    if n == 0 {
      ImageHeader(c, 0, HEADER);
    } else {
      DecodeOwnEntries(c, n - 1);
      DecodeOwnEntry(c, n - 1);
      assert c.entries[..n][..n - 1] == c.entries[..n - 1];
    }
  }

  /** deserialize(serialize(c)) succeeds and gives c back with its strings cut to their fields. */
  lemma RoundTrip(c: Container)
    requires Fits(c)
    ensures Decode(Image(c)) == Parsed(Cut(c))
  {
    hide Concat, Table, Payload, Image, LE, FromLE, Field, CStr, Kept, Crc32.Crc, WordLE, WordFromLE, DecodeEntries;
    HeaderLayout(c);
    ImageShape(c);
    ImageHeader(c, 0, 4);
    ImageHeader(c, 4, 4);
    ImageHeader(c, 8, 8);
    ImageHeader(c, 16, 8);
    ImageHeader(c, 24, 8);
    ImageHeader(c, 32, 4);
    ImageHeader(c, 40, 64);
    ImageHeader(c, 104, 128);
    ImageHeader(c, 232, 256);
    ImageHeader(c, 488, 4);
    ImageHeader(c, 492, 4);
    ImagePayload(c);
    Pow256Values();
    LERoundTrip(MAGIC, 4);
    LERoundTrip(VERSION, 4);
    LERoundTrip(c.titleId, 8);
    LERoundTrip(c.createdAt, 8);
    LERoundTrip(c.modifiedAt, 8);
    LERoundTrip(|c.entries|, 4);
    LERoundTrip(Total(c.entries), 4);
    WordRoundTrip(Crc32.Crc(Payload(c.entries)));
    FieldReads(c.titleName, 64);
    FieldReads(c.subtitle, 128);
    FieldReads(c.detail, 256);
    DecodeOwnEntries(c, |c.entries|);
    assert c.entries[..|c.entries|] == c.entries;
  }

  // ---- serializing again ----

  ghost predicate AllClean(c: Container) {
    && CleanTail(c.titleName, 64) && CleanTail(c.subtitle, 128) && CleanTail(c.detail, 256)
    && forall i :: 0 <= i < |c.entries| ==> CleanTail(c.entries[i].name, 64)
  }

  lemma {:induction false} CutEntriesSame(es: seq<Entry>, i: nat)
    requires i <= |es|
    ensures CutEntries(es)[..i] == CutEntries(es[..i])
    ensures i < |es| ==> CutEntries(es)[i] == es[i].(name := Kept(es[i].name, 64))
    decreases |es|
  {
    hide Kept;
    if i == |es| {
      assert es[..i] == es;
    } else if i < |es| - 1 {
      var n := |es| - 1;
      CutEntriesSame(es[..n], i);
      assert es[..n][..i] == es[..i];
    }
  }

  lemma {:induction false} CutKeepsPayload(es: seq<Entry>)
    ensures Payload(CutEntries(es)) == Payload(es) && Total(CutEntries(es)) == Total(es)
  {
    hide Kept;
    if es != [] {
      var n := |es| - 1;
      CutKeepsPayload(es[..n]);
      assert CutEntries(es)[..n] == CutEntries(es[..n]);
    }
  }

  lemma {:induction false} CutKeepsTable(es: seq<Entry>)
    requires forall i :: 0 <= i < |es| ==> CleanTail(es[i].name, 64)
    ensures Table(CutEntries(es)) == Table(es)
  {
    hide Kept, LE, Field, CleanTail, Concat;
    if es != [] {
      var n := |es| - 1;
      CutKeepsTable(es[..n]);
      CutKeepsPayload(es[..n]);
      FieldStableIff(es[n].name, 64);
      assert CutEntries(es)[..n] == CutEntries(es[..n]);
    }
  }

  /** Serializing what was read gives the same bytes exactly when no string hides bytes behind a NUL. */
  lemma ReserializeIff(c: Container)
    ensures Image(Cut(c)) == Image(c) <==> AllClean(c)
  {
    hide Kept, LE, Field, CleanTail, Concat, Table, Payload, Total, Crc32.Crc, WordLE, Image;
    CutKeepsPayload(c.entries);
    FieldStableIff(c.titleName, 64);
    FieldStableIff(c.subtitle, 128);
    FieldStableIff(c.detail, 256);
    if AllClean(c) {
      CutKeepsTable(c.entries);
      assert HeaderParts(Cut(c)) == HeaderParts(c);
      SameImage(c, Cut(c));
    }
    if Image(Cut(c)) == Image(c) {
      HeaderLayout(c);
      HeaderLayout(Cut(c));
      ImageHeader(c, 40, 64);
      ImageHeader(c, 104, 128);
      ImageHeader(c, 232, 256);
      ImageHeader(Cut(c), 40, 64);
      ImageHeader(Cut(c), 104, 128);
      ImageHeader(Cut(c), 232, 256);
      forall i | 0 <= i < |c.entries| ensures CleanTail(c.entries[i].name, 64) {
        SameImageCleanName(c, i);
      }
    }
  }

  lemma SameImage(c: Container, d: Container)
    requires HeaderParts(c) == HeaderParts(d) && Table(c.entries) == Table(d.entries)
    requires Payload(c.entries) == Payload(d.entries)
    ensures Image(c) == Image(d)
  {
    hide Concat, HeaderParts, Table, Payload;
  }

  lemma SameImageCleanName(c: Container, i: nat)
    requires Image(Cut(c)) == Image(c) && i < |c.entries|
    ensures CleanTail(c.entries[i].name, 64)
  {
    hide Kept, LE, Field, CleanTail, Concat, Table, Payload, Total, Image, HeaderParts;
    ImageEntry(c, i, 24, 64);
    ImageEntry(Cut(c), i, 24, 64);
    EntryLayout(c.entries[i], Total(c.entries[..i]));
    EntryLayout(Cut(c).entries[i], Total(Cut(c).entries[..i]));
    CutEntriesSame(c.entries, i);
    FieldStableIff(c.entries[i].name, 64);
  }

  // ---- corruption ----

  /** Any change of the payload bytes of a serialized container that stays inside four consecutive bytes, one byte
      among them, makes deserialize reject it. */
  lemma CorruptPayloadRejected(c: Container, bytes: seq<byte>, k: nat)
    requires Fits(c) && |bytes| == |Image(c)| && bytes != Image(c)
    requires var start := HEADER + |c.entries| * ENTRY;
             forall i :: 0 <= i < |bytes| && !(start <= i && k <= i < k + 4) ==> bytes[i] == Image(c)[i]
    ensures Decode(bytes) == Rejected
  {
    hide Concat, Table, Payload, Image, LE, FromLE, Field, CStr, Kept, Crc32.Crc, WordLE, WordFromLE, DecodeEntries;
    hide HeaderParts, Load;
    var image, start := Image(c), HEADER + |c.entries| * ENTRY;
    ImageShape(c);
    ImagePayload(c);
    SameHeader(image, bytes, start);
    HeaderCounts(c);
    var good, bad := Load(image, start, Total(c.entries)), Load(bytes, start, Total(c.entries));
    DifferentPayload(image, bytes, start, good, bad);
    Crc32.BurstDetected(good, bad, if k >= start then k - start else 0);
  }

  /** The counts and the checksum that reading back the header gives. */
  lemma HeaderCounts(c: Container)
    requires Fits(c)
    ensures |Image(c)| >= HEADER
    ensures U32(Image(c), 32) == |c.entries| && U32(Image(c), 488) == Total(c.entries)
    ensures WordFromLE(Load(Image(c), 492, 4)) == Crc32.Crc(Payload(c.entries))
  {
    hide Concat, Table, Payload, Image, LE, FromLE, Field, Crc32.Crc, WordLE, WordFromLE, Load;
    HeaderLayout(c);
    ImageHeader(c, 32, 4);
    ImageHeader(c, 488, 4);
    ImageHeader(c, 492, 4);
    Pow256Values();
    LERoundTrip(|c.entries|, 4);
    LERoundTrip(Total(c.entries), 4);
    WordRoundTrip(Crc32.Crc(Payload(c.entries)));
  }

  lemma SameHeader(image: seq<byte>, bytes: seq<byte>, start: nat)
    requires |image| == |bytes| && HEADER <= start <= |image|
    requires forall i :: 0 <= i < start ==> bytes[i] == image[i]
    ensures Load(bytes, 32, 4) == Load(image, 32, 4) && Load(bytes, 488, 4) == Load(image, 488, 4)
    ensures Load(bytes, 492, 4) == Load(image, 492, 4)
  {
  }

  lemma DifferentPayload(image: seq<byte>, bytes: seq<byte>, start: nat, good: seq<byte>, bad: seq<byte>)
    requires |image| == |bytes| && start <= |image| && image != bytes
    requires forall i :: 0 <= i < start ==> bytes[i] == image[i]
    requires good == Load(image, start, |image| - start) && bad == Load(bytes, start, |image| - start)
    ensures good != bad
    ensures forall i :: 0 <= i < |image| - start ==> good[i] == image[start + i]
    ensures forall i :: 0 <= i < |image| - start ==> bad[i] == bytes[start + i]
  {
    var i :| 0 <= i < |image| && image[i] != bytes[i];
    assert good[i - start] != bad[i - start];
  }

  // ---- descriptors whose 64-bit sum wraps ----

  /** Offset plus size of descriptor i, without wrap-around. */
  function Sum(bytes: seq<byte>, i: nat): nat
    requires HEADER + i * ENTRY + ENTRY <= |bytes|
  {
    LoadU64(bytes, HEADER + i * ENTRY) + LoadU64(bytes, HEADER + i * ENTRY + 8)
  }

  /** Descriptor i describes bytes of a payload of `size` bytes. */
  predicate Inside(bytes: seq<byte>, size: nat, i: nat)
    requires HEADER + i * ENTRY + ENTRY <= |bytes|
  {
    Sum(bytes, i) <= size
  }

  /** The sum passes the check only because it wrapped. */
  predicate Wrapped(bytes: seq<byte>, size: nat, i: nat)
    requires HEADER + i * ENTRY + ENTRY <= |bytes|
  {
    TWO64 <= Sum(bytes, i) <= TWO64 + size
  }

  ghost predicate AllInside(bytes: seq<byte>, size: nat, n: nat)
    requires HEADER + n * ENTRY <= |bytes|
  {
    forall i: nat :: i < n ==> Inside(bytes, size, i)
  }

  /** Descriptor i wraps and all before it are inside. */
  ghost predicate FirstWrapped(bytes: seq<byte>, size: nat, i: nat)
    requires HEADER + i * ENTRY + ENTRY <= |bytes|
  {
    Wrapped(bytes, size, i) && AllInside(bytes, size, i)
  }

  /** Everything deserialize checks before the descriptors: sizes, magic, version, checksum. */
  predicate HeaderAccepted(bytes: seq<byte>) {
    && |bytes| >= HEADER && U32(bytes, 0) == MAGIC && U32(bytes, 4) == VERSION
    && HEADER + U32(bytes, 32) * ENTRY + U32(bytes, 488) <= |bytes|
    && Crc32.Crc(Load(bytes, HEADER + U32(bytes, 32) * ENTRY, U32(bytes, 488))) == WordFromLE(Load(bytes, 492, 4))
  }

  lemma {:induction false} EntriesOutcome(bytes: seq<byte>, payload: seq<byte>, n: nat)
    requires HEADER + n * ENTRY <= |bytes| && |payload| < TWO32
    ensures DecodeEntries(bytes, payload, n).Parsed? <==> AllInside(bytes, |payload|, n)
    ensures DecodeEntries(bytes, payload, n).OutOfBounds? <==>
            exists i: nat :: i < n && FirstWrapped(bytes, |payload|, i)
  {
    hide LoadU64, U32, Str;
    if n > 0 {
      EntriesOutcome(bytes, payload, n - 1);
      EntryOutcome(bytes, payload, n - 1);
      var last := n - 1;
      assert AllInside(bytes, |payload|, n) <==> AllInside(bytes, |payload|, last) && Inside(bytes, |payload|, last);
      if FirstWrapped(bytes, |payload|, last) {
        assert !exists i: nat :: i < last && FirstWrapped(bytes, |payload|, i);
      }
    }
  }

  lemma EntryOutcome(bytes: seq<byte>, payload: seq<byte>, i: nat)
    requires HEADER + i * ENTRY + ENTRY <= |bytes| && |payload| < TWO32
    ensures DecodeEntry(bytes, HEADER + i * ENTRY, payload).Parsed? <==> Inside(bytes, |payload|, i)
    ensures DecodeEntry(bytes, HEADER + i * ENTRY, payload).OutOfBounds? <==> Wrapped(bytes, |payload|, i)
  {
    hide U32, Str;
  }

  /** Deserialize accepts exactly when the header is right and every descriptor lies inside the payload. */
  lemma ParsedIff(bytes: seq<byte>)
    ensures Decode(bytes).Parsed? <==>
            HeaderAccepted(bytes) && AllInside(bytes, U32(bytes, 488), U32(bytes, 32))
  {
    hide U32, DecodeEntries, Crc32.Crc, WordFromLE, AllInside, FirstWrapped, Load, Str;
    if HeaderAccepted(bytes) {
      EntriesOutcome(bytes, Load(bytes, HEADER + U32(bytes, 32) * ENTRY, U32(bytes, 488)), U32(bytes, 32));
    }
  }

  /** Deserialize leaves its bounds exactly when the header is right and the first descriptor that does not lie inside
      the payload wraps past 2^64 back into it. */
  lemma OutOfBoundsIff(bytes: seq<byte>)
    ensures Decode(bytes).OutOfBounds? <==>
            HeaderAccepted(bytes) && exists i: nat :: i < U32(bytes, 32) && FirstWrapped(bytes, U32(bytes, 488), i)
  {
    hide U32, DecodeEntries, Crc32.Crc, WordFromLE, AllInside, FirstWrapped, Load, Str;
    if HeaderAccepted(bytes) {
      EntriesOutcome(bytes, Load(bytes, HEADER + U32(bytes, 32) * ENTRY, U32(bytes, 488)), U32(bytes, 32));
    }
  }

  /** Such inputs exist: in the image of any container with an entry, offset 2^64 - 1 and size 1 pass the check. */
  lemma WrappedOffsetPasses(c: Container)
    requires Fits(c) && c.entries != []
    ensures |Image(c)| >= HEADER + ENTRY
    ensures Decode(Store(Image(c), HEADER, LE(TWO64 - 1, 8) + LE(1, 8))).OutOfBounds?
  {
    hide Image, LE, FromLE, Decode, HeaderAccepted, Load, Store, Crc32.Crc, WordFromLE, Payload, Table;
    var image, forged := Image(c), LE(TWO64 - 1, 8) + LE(1, 8);
    ImageShape(c);
    var bytes := Store(image, HEADER, forged);
    ParsedIff(image);
    RoundTrip(c);
    HeaderCounts(c);
    AcceptsAlike(image, forged);
    ForgedSum(image);
    assert FirstWrapped(bytes, U32(bytes, 488), 0);
    OutOfBoundsIff(bytes);
  }

  lemma ForgedSum(image: seq<byte>)
    requires |image| >= HEADER + ENTRY
    ensures Sum(Store(image, HEADER, LE(TWO64 - 1, 8) + LE(1, 8)), 0) == TWO64
  {
    hide Load, Store, LE, FromLE;
    var x, y := LE(TWO64 - 1, 8), LE(1, 8);
    StoreStore(image, HEADER, x, y);
    LoadU64Frame(Store(image, HEADER, x), HEADER + 8, y, HEADER);
    Pow256Values();
    LoadStoredU64(image, HEADER, TWO64 - 1);
    LoadStoredU64(Store(image, HEADER, x), HEADER + 8, 1);
  }

  /** Changing the first descriptor changes nothing the header check reads. */
  lemma AcceptsAlike(image: seq<byte>, forged: seq<byte>)
    requires |forged| == 16 && HeaderAccepted(image) && U32(image, 32) >= 1
    ensures var bytes := Store(image, HEADER, forged);
            HeaderAccepted(bytes) && U32(bytes, 32) == U32(image, 32) && U32(bytes, 488) == U32(image, 488)
  {
    hide Load, Store, Crc32.Crc, WordFromLE, FromLE;
    StoreFrame(image, HEADER, forged, 0, 4);
    StoreFrame(image, HEADER, forged, 4, 4);
    StoreFrame(image, HEADER, forged, 32, 4);
    StoreFrame(image, HEADER, forged, 488, 4);
    StoreFrame(image, HEADER, forged, 492, 4);
    StoreFrame(image, HEADER, forged, HEADER + U32(image, 32) * ENTRY, U32(image, 488));
  }

  // ---- containers of any size, and bytes after the payload ----

  /** Reading back gives the container, strings cut, exactly when the header's 32-bit fields can hold its sizes. */
  lemma RoundTripIff(c: Container)
    requires Typed(c)
    ensures Decode(Image(c)) == Parsed(Cut(c)) <==> Fits(c)
  {
    hide Image, Decode, Cut, Typed;
    if Fits(c) {
      RoundTrip(c);
    } else if |c.entries| >= TWO32 {
      FewEntries(Image(c));
      CutLength(c);
    } else {
      BigPayloadRefused(c);
    }
  }

  lemma CutLength(c: Container)
    ensures |Cut(c).entries| == |c.entries|
  {
  }

  lemma FewEntries(bytes: seq<byte>)
    ensures Decode(bytes).Parsed? ==> |Decode(bytes).value.entries| < TWO32
  {
    hide U32, DecodeEntries, Crc32.Crc, WordFromLE, Str;
  }

  lemma BigPayloadRefused(c: Container)
    requires Typed(c) && |c.entries| < TWO32 <= Total(c.entries)
    ensures !Decode(Image(c)).Parsed?
  {
    hide Image, Decode, Concat, HeaderParts, EntryParts, LE, FromLE, Payload, Total, Load, HeaderAccepted;
    var i := FirstPast(c.entries);
    HeaderCount(c);
    ImageEntry(c, i, 0, 8);
    ImageEntry(c, i, 8, 8);
    EntryLayout(c.entries[i], Total(c.entries[..i]));
    EntryNumbers(c, i);
    PayloadTiles(c.entries, i);
    ParsedIff(Image(c));
    assert !Inside(Image(c), U32(Image(c), 488), i);
  }

  lemma EntryNumbers(c: Container, i: nat)
    requires Typed(c) && i < |c.entries| && Total(c.entries[..i]) < TWO64
    ensures HEADER + i * ENTRY + ENTRY <= |Image(c)|
    ensures Sum(Image(c), i) == Total(c.entries[..i]) + |c.entries[i].data|
  {
    hide Image, Concat, LE, FromLE, Field, Load, Total, HeaderParts, Payload, Table;
    var e, offset := c.entries[i], Total(c.entries[..i]);
    ImageEntry(c, i, 0, 8);
    ImageEntry(c, i, 8, 8);
    EntryLayout(e, offset);
    Pow256Values();
    LERoundTrip(offset, 8);
    LERoundTrip(|e.data|, 8);
  }

  lemma HeaderCount(c: Container)
    requires |c.entries| < TWO32
    ensures |Image(c)| >= HEADER && U32(Image(c), 32) == |c.entries|
  {
    hide Concat, Table, Payload, Image, LE, FromLE, Field, Crc32.Crc, WordLE, Load, Total;
    HeaderLayout(c);
    ImageHeader(c, 32, 4);
    Pow256Values();
    LERoundTrip(|c.entries|, 4);
    ImageShape(c);
  }

  /** The first entry that ends past 2^32. */
  lemma {:induction false} FirstPast(es: seq<Entry>) returns (i: nat)
    requires Total(es) >= TWO32
    ensures i < |es| && Total(es[..i]) < TWO32 <= Total(es[..i]) + |es[i].data|
  {
    var n := |es| - 1;
    if Total(es[..n]) >= TWO32 {
      i := FirstPast(es[..n]);
      assert es[..n][..i] == es[..i];
    } else {
      i := n;
    }
  }

  /** What follows the payload is not read. */
  lemma DecodeIgnoresTail(bytes: seq<byte>, tail: seq<byte>)
    requires |bytes| >= HEADER && HEADER + U32(bytes, 32) * ENTRY + U32(bytes, 488) <= |bytes|
    ensures Decode(bytes + tail) == Decode(bytes)
  {
    hide Load, Crc32.Crc, WordFromLE, FromLE, CStr, DecodeEntries;
    LoadPrefix(bytes, tail, 0, 4);
    LoadPrefix(bytes, tail, 4, 4);
    LoadPrefix(bytes, tail, 8, 8);
    LoadPrefix(bytes, tail, 16, 8);
    LoadPrefix(bytes, tail, 24, 8);
    LoadPrefix(bytes, tail, 32, 4);
    LoadPrefix(bytes, tail, 40, 64);
    LoadPrefix(bytes, tail, 104, 128);
    LoadPrefix(bytes, tail, 232, 256);
    LoadPrefix(bytes, tail, 488, 4);
    LoadPrefix(bytes, tail, 492, 4);
    LoadPrefix(bytes, tail, HEADER + U32(bytes, 32) * ENTRY, U32(bytes, 488));
    EntriesIgnoreTail(bytes, tail, Load(bytes, HEADER + U32(bytes, 32) * ENTRY, U32(bytes, 488)), U32(bytes, 32));
  }

  lemma {:induction false} EntriesIgnoreTail(bytes: seq<byte>, tail: seq<byte>, payload: seq<byte>, n: nat)
    requires HEADER + n * ENTRY <= |bytes|
    ensures DecodeEntries(bytes + tail, payload, n) == DecodeEntries(bytes, payload, n)
  {
    hide DecodeEntry;
    if n > 0 {
      EntriesIgnoreTail(bytes, tail, payload, n - 1);
      EntryIgnoresTail(bytes, tail, payload, HEADER + (n - 1) * ENTRY);
    }
  }

  lemma EntryIgnoresTail(bytes: seq<byte>, tail: seq<byte>, payload: seq<byte>, at: nat)
    requires at + ENTRY <= |bytes|
    ensures DecodeEntry(bytes + tail, at, payload) == DecodeEntry(bytes, at, payload)
  {
    hide Load, FromLE, CStr;
    LoadPrefix(bytes, tail, at, 8);
    LoadPrefix(bytes, tail, at + 8, 8);
    LoadPrefix(bytes, tail, at + 16, 4);
    LoadPrefix(bytes, tail, at + 24, 64);
  }

  /** An image describes no more bytes than it has, also when its counts were cut to 32 bits. */
  lemma ImageDescribed(c: Container)
    ensures |Image(c)| >= HEADER && HEADER + U32(Image(c), 32) * ENTRY + U32(Image(c), 488) <= |Image(c)|
  {
    hide Concat, Table, Payload, Image, LE, FromLE, Field, Crc32.Crc, WordLE, Load, Total;
    HeaderLayout(c);
    ImageShape(c);
    ImageHeader(c, 32, 4);
    ImageHeader(c, 488, 4);
    Pow256Values();
    LERoundTrip(|c.entries| % TWO32, 4);
    LERoundTrip(Total(c.entries) % TWO32, 4);
  }

  /** Whatever is parsed fits the widths of the container's members. */
  lemma ParsedTyped(bytes: seq<byte>)
    ensures Decode(bytes).Parsed? ==> Typed(Decode(bytes).value)
  {
    hide U32, DecodeEntries, Crc32.Crc, WordFromLE, Load, Str;
    if HeaderAccepted(bytes) {
      EntriesTyped(bytes, Load(bytes, HEADER + U32(bytes, 32) * ENTRY, U32(bytes, 488)), U32(bytes, 32));
    }
  }

  lemma {:induction false} EntriesTyped(bytes: seq<byte>, payload: seq<byte>, n: nat)
    requires HEADER + n * ENTRY <= |bytes| && |payload| < TWO32
    ensures DecodeEntries(bytes, payload, n).Parsed? ==>
              forall i :: 0 <= i < n ==>
                var e := DecodeEntries(bytes, payload, n).value[i];
                e.flags < TWO32 && |e.data| < TWO64
  {
    hide U32, LoadU64, Str;
    if n > 0 {
      EntriesTyped(bytes, payload, n - 1);
    }
  }
}
