/** sceSaveDataGetSaveDataMemory and its siblings: the guest reads and writes a save as an opaque blob. */
module SaveData {
  import opened Bytes
  import opened SaveContainer
  import opened SaveContainerProofs

  const OK: int := 0
  const ERR_INVALID_ARG: int := 0x8002_0005 - 0x1_0000_0000
  const ERR_NOT_FOUND: int := 0x8002_0004 - 0x1_0000_0000

  /** How a call ends: with a status code, or in the undefined behaviour of the source. */
  datatype Status = Done(code: int) | Undefined

  /** The conversion of a size to int. */
  function ToInt32(n: nat): int {
    var m := n % TWO32;
    if m < 0x8000_0000 then m else m - TWO32
  }

  /** The buffer grown with zeros to at least n bytes. */
  function Grown(bytes: seq<byte>, n: nat): (r: seq<byte>)
    ensures |r| >= n && bytes <= r
  {
    if n <= |bytes| then bytes else bytes + Zeros(n - |bytes|)
  }

  /** The conversion keeps the value modulo 2^32. */
  lemma ToInt32Is(n: nat)
    ensures -0x8000_0000 <= ToInt32(n) < 0x8000_0000 && (n - ToInt32(n)) % 0x1_0000_0000 == 0
    ensures n < 0x8000_0000 ==> ToInt32(n) == n
  {
  }

  /** Nothing is cut, and what is added are zeros up to the length asked for. */
  lemma GrownIs(bytes: seq<byte>, n: nat)
    ensures |Grown(bytes, n)| == if n <= |bytes| then |bytes| else n
    ensures forall i :: 0 <= i < |Grown(bytes, n)| ==> Grown(bytes, n)[i] == if i < |bytes| then bytes[i] else 0
  {
  }

  class Saves {
    var saves: map<nat, Container>

    ghost predicate Valid()
      reads this
    {
      forall id :: id in saves ==> Typed(saves[id])
    }

    /** Returns the status and the bytes copied to the guest's buffer. */
    method GetMemory(id: nat, outSize: nat, offset: nat) returns (code: int, copied: seq<byte>)
      requires Valid()
      ensures id !in saves ==> code == ERR_NOT_FOUND && copied == []
      ensures id in saves && offset >= |Image(saves[id])| ==> code == OK && copied == []
      ensures id in saves && offset < |Image(saves[id])| ==>
                && code == ToInt32(|copied|)
                && |copied| == (if outSize <= |Image(saves[id])| - offset then outSize else |Image(saves[id])| - offset)
                && copied == Load(Image(saves[id]), offset, |copied|)
    {
      hide Image;
      if id !in saves {
        return ERR_NOT_FOUND, [];
      }
      var bytes := Serialize(saves[id]);
      if offset >= |bytes| {
        return OK, [];
      }
      var take := if outSize <= |bytes| - offset then outSize else |bytes| - offset;
      return ToInt32(take), Load(bytes, offset, take);
    }

    /** The blob with the guest's bytes written over it, grown if they reach past the end. */
    ghost function Patched(id: nat, buf: seq<byte>, offset: nat): seq<byte>
      requires id in saves
      reads this
    {
      Store(Grown(Image(saves[id]), offset + |buf|), offset, buf)
    }

    /** Applies the write if the patched blob still parses; otherwise keeps the container. `Undefined` where the source
        leaves its buffers: the sum offset + size wraps, or the parser meets a descriptor whose sum wraps. */
    method SetMemory(id: nat, buf: seq<byte>, offset: nat) returns (r: Status)
      requires Valid() && offset < TWO64
      modifies this
      ensures Valid()
      ensures id !in old(saves) ==> r == Done(ERR_NOT_FOUND) && saves == old(saves)
      ensures id in old(saves) && offset + |buf| >= TWO64 ==> r == Undefined && saves == old(saves)
      ensures id in old(saves) && offset + |buf| < TWO64 ==>
                match Decode(old(Patched(id, buf, offset)))
                case Parsed(c) => r == Done(OK) && saves == old(saves)[id := c]
                case Rejected => r == Done(ERR_INVALID_ARG) && saves == old(saves)
                case OutOfBounds => r == Undefined && saves == old(saves)
    {
      hide Image, Decode, Typed;
      if id !in saves {
        return Done(ERR_NOT_FOUND);
      }
      var bytes := Serialize(saves[id]);
      if offset + |buf| >= TWO64 {
        return Undefined;
      }
      bytes := Grown(bytes, offset + |buf|);
      bytes := Store(bytes, offset, buf);
      var parsed := Deserialize(bytes);
      ParsedTyped(bytes);
      match parsed
      case Parsed(c) =>
        saves := saves[id := c];
        return Done(OK);
      case Rejected => return Done(ERR_INVALID_ARG);
      case OutOfBounds => return Undefined;
    }

    method DeleteMemory(id: nat) returns (code: int)
      requires Valid()
      modifies this
      ensures Valid()
      ensures id !in old(saves) ==> code == ERR_NOT_FOUND && saves == old(saves)
      ensures id in old(saves) ==> code == OK && saves == old(saves)[id := Container(0, [], [], [], 0, 0, [])]
    {
      if id !in saves {
        return ERR_NOT_FOUND;
      }
      saves := saves[id := Container(0, [], [], [], 0, 0, [])];
      return OK;
    }

    method GetMemorySize(id: nat) returns (code: int, size: nat)
      requires Valid()
      ensures id !in saves ==> code == ERR_NOT_FOUND
      ensures id in saves ==> code == OK && size == |Image(saves[id])|
    {
      if id !in saves {
        return ERR_NOT_FOUND, 0;
      }
      var bytes := Serialize(saves[id]);
      return OK, |bytes|;
    }

    /** The guest reads a slice and writes it back untouched, at any offset: the call succeeds and leaves the container
        with its strings cut exactly when the 32-bit fields of the header can hold the container's sizes. */
    method WriteBack(id: nat, n: nat, offset: nat) returns (r: Status)
      requires Valid() && id in saves && offset < TWO64
      modifies this
      ensures Valid()
      ensures r == Done(OK) && saves == old(saves)[id := Cut(old(saves)[id])] <==> Fits(old(saves)[id])
    {
      hide Image, Decode, Fits, Cut;
      ghost var c, before := saves[id], saves;
      var status, slice := GetMemory(id, n, offset);
      UnchangedBlob(c, slice, offset);
      RoundTripIff(c);
      ImageFitsMemory(c);
      r := SetMemory(id, slice, offset);
      if saves == before[id := Cut(c)] {
        assert saves[id] == Cut(c);
      }
    }
  }

  /** Storing a slice back where it was, or nothing beyond the end, leaves what the parser reads. */
  lemma UnchangedBlob(c: Container, slice: seq<byte>, offset: nat)
    requires if offset < |Image(c)| then offset + |slice| <= |Image(c)| && slice == Load(Image(c), offset, |slice|)
             else slice == []
    ensures Decode(Store(Grown(Image(c), offset + |slice|), offset, slice)) == Decode(Image(c))
  {
    hide Image, Decode;
    var bytes := Image(c);
    if offset < |bytes| {
      StoreUnchanged(bytes, offset, |slice|);
    } else {
      var tail := Grown(bytes, offset)[|bytes|..];
      assert Store(Grown(bytes, offset), offset, []) == bytes + tail;
      ImageDescribed(c);
      DecodeIgnoresTail(bytes, tail);
    }
  }

  lemma ImageFitsMemory(c: Container)
    ensures Fits(c) ==> |Image(c)| < TWO64
  {
    hide Image;
    ImageShape(c);
  }

  lemma StoreUnchanged(bytes: seq<byte>, at: nat, n: nat)
    requires at + n <= |bytes|
    ensures Store(bytes, at, Load(bytes, at, n)) == bytes
  {
  }

  /** Writing back an unmodified slice leaves the save as it was exactly when its strings fit their fields. */
  lemma WriteBackIsIdentityIff(m: map<nat, Container>, id: nat)
    requires id in m
    ensures m[id := Cut(m[id])] == m <==> InCapacity(m[id])
  {
    hide Kept;
    var c := m[id];
    assert m[id := Cut(c)] == m <==> Cut(c) == c by {
      if m[id := Cut(c)] == m {
        assert m[id := Cut(c)][id] == m[id];
      }
    }
    KeptIff(c.titleName, 64);
    KeptIff(c.subtitle, 128);
    KeptIff(c.detail, 256);
    forall i | 0 <= i < |c.entries|
      ensures CutEntries(c.entries)[i] == c.entries[i] <==> InField(c.entries[i].name, 64) {
      CutEntriesSame(c.entries, i);
      KeptIff(c.entries[i].name, 64);
    }
  }

  /** NUL-free and shorter than the field. */
  predicate InField(s: seq<byte>, cap: nat) {
    |s| < cap && 0 !in s
  }

  predicate InCapacity(c: Container) {
    && InField(c.titleName, 64) && InField(c.subtitle, 128) && InField(c.detail, 256)
    && forall i :: 0 <= i < |c.entries| ==> InField(c.entries[i].name, 64)
  }

  lemma KeptIff(s: seq<byte>, cap: nat)
    requires cap > 0
    ensures Kept(s, cap) == s <==> InField(s, cap)
  {
    if InField(s, cap) {
      CStrUnique(s, |s|);
    }
  }
}
