/** memory.rs: sparse memory in 4 KiB pages, allocated on the first write. */
module Memory {
  import opened Arithmetic
  import opened Bytes
  import opened FlatMemory
  import Bits

  function PageIdx(addr: u32): nat { addr / 4096 }

  function PageOff(addr: u32): (o: nat)
    ensures o < 4096
  {
    addr % 4096
  }

  lemma AddressSplit(a: u32, b: u32)
    ensures PageIdx(a) == PageIdx(b) && PageOff(a) == PageOff(b) ==> a == b
  {}

  /** Values of two and four bytes. */
  lemma TwoBytes(b0: byte, b1: byte)
    ensures LeValue([b0, b1]) == b0 + 0x100 * b1
  {
    assert [b0, b1][1..] == [b1] && [b1][1..] == [];
    assert LeValue([b1]) == b1;
  }

  lemma FourBytes(b0: byte, b1: byte, b2: byte, b3: byte)
    ensures LeValue([b0, b1, b2, b3]) == b0 + 0x100 * b1 + 0x1_0000 * b2 + 0x100_0000 * b3
  {
    assert [b0, b1, b2, b3] == [b0, b1] + [b2, b3];
    LeAppend([b0, b1], [b2, b3]);
    TwoBytes(b0, b1);
    TwoBytes(b2, b3);
    assert Pow(256, 2) == 0x1_0000;
  }

  /** `y | (x << k)` where y fits below bit k and x keeps all its bits. */
  lemma JoinAbove(w: nat, y: nat, x: nat, k: nat)
    requires k <= w && y < Pow2(k) && x * Pow2(k) < Pow2(w)
    ensures Bits.Or(w, y, Bits.Shl(w, x, k)) == y + x * Pow2(k)
  {
    var s := x * Pow2(k);
    PowPositive(2, k);
    SmallMod(s, Pow2(w));
    CongZero(s, x, Pow2(k));
    Bits.OrCommutes(w, y, s);
    Bits.OrDisjoint(w, s, y, k);
  }

  /** Joining bytes with shifts and ors gives their little-endian value. */
  function Join2(b0: byte, b1: byte): (v: nat)
    ensures v == LeValue([b0, b1]) && v < 0x1_0000
  {
    Bits.Widths();
    TwoBytes(b0, b1);
    JoinAbove(16, b0, b1, 8);
    Bits.Or(16, b0, Bits.Shl(16, b1, 8))
  }

  /** A byte put above a partial word, with the place value as a number. */
  lemma JoinByte(y: nat, x: byte, k: nat, place: nat)
    requires k <= 24 && place == Pow2(k) && y < place && 256 * place <= 0x1_0000_0000
    ensures Bits.Or(32, y, Bits.Shl(32, x, k)) == y + x * place < 256 * place
  {
    hide Pow;
    Bits.Widths();
    assert x * place <= 255 * place;
    JoinAbove(32, y, x, k);
  }

  lemma JoinedWord(b0: byte, b1: byte, b2: byte, b3: byte)
    ensures Bits.Or(32, Bits.Or(32, Bits.Or(32, b0, Bits.Shl(32, b1, 8)), Bits.Shl(32, b2, 16)), Bits.Shl(32, b3, 24))
         == b0 + b1 * 0x100 + b2 * 0x1_0000 + b3 * 0x100_0000 < 0x1_0000_0000
  {
    hide Pow;
    hide Bits.Shl;
    hide Bits.Or;
    Bits.Widths();
    JoinByte(b0, b1, 8, 0x100);
    JoinByte(b0 + b1 * 0x100, b2, 16, 0x1_0000);
    JoinByte(b0 + b1 * 0x100 + b2 * 0x1_0000, b3, 24, 0x100_0000);
  }

  function Join4(b0: byte, b1: byte, b2: byte, b3: byte): (v: u32)
    ensures v == LeValue([b0, b1, b2, b3])
  {
    hide Pow;
    hide LeValue;
    hide Bits.Shl;
    hide Bits.Or;
    FourBytes(b0, b1, b2, b3);
    JoinedWord(b0, b1, b2, b3);
    Bits.Or(32, Bits.Or(32, Bits.Or(32, b0, Bits.Shl(32, b1, 8)), Bits.Shl(32, b2, 16)), Bits.Shl(32, b3, 24))
  }

  /** `to_le_bytes` of a u32, and the two bytes `write_u16` stores. */
  lemma LeBytes(v: u32)
    ensures ToLe(v, 4) == [v % 0x100, v / 0x100 % 0x100, v / 0x1_0000 % 0x100, v / 0x100_0000 % 0x100]
    ensures ToLe(v, 2) == [v % 0x100, v / 0x100 % 0x100]
  {
    assert v / 0x100 / 0x100 == v / 0x1_0000 && v / 0x1_0000 / 0x100 == v / 0x100_0000;
    assert ToLe(v / 0x100_0000, 1) == [v / 0x100_0000 % 0x100];
    assert ToLe(v / 0x1_0000, 2) == [v / 0x1_0000 % 0x100] + ToLe(v / 0x100_0000, 1);
    assert ToLe(v / 0x100, 3) == [v / 0x100 % 0x100] + ToLe(v / 0x1_0000, 2);
    assert ToLe(v / 0x100, 1) == [v / 0x100 % 0x100];
  }

  /** An aligned word lies in one page. */
  lemma AlignedInPage(addr: u32)
    requires addr % 4 == 0
    ensures PageOff(addr) + 3 < 4096
    ensures forall i :: 0 <= i < 4 ==>
      WrappingAdd(addr, i) == addr + i && PageIdx(WrappingAdd(addr, i)) == PageIdx(addr) &&
      PageOff(WrappingAdd(addr, i)) == PageOff(addr) + i
  {
    var q, o := addr / 4096, addr % 4096;
    DivModUnique(addr, 4, 1024 * q + o / 4, o % 4);
    forall i: nat | i < 4
      ensures WrappingAdd(addr, i) == addr + i
      ensures PageIdx(WrappingAdd(addr, i)) == q && PageOff(WrappingAdd(addr, i)) == o + i
    {
      SmallMod(addr + i, 0x1_0000_0000);
      DivModUnique(addr + i, 4096, q, o + i);
    }
  }

  /** Which cell of its page an address near an aligned one denotes. */
  lemma AlignedStore(addr: u32, a: u32)
    requires addr % 4 == 0
    ensures Offset(addr, a) < 4 ==> PageIdx(a) == PageIdx(addr) && PageOff(a) == PageOff(addr) + Offset(addr, a)
    ensures PageIdx(a) == PageIdx(addr) && Offset(addr, a) >= 4 ==>
      !(PageOff(addr) <= PageOff(a) < PageOff(addr) + 4)
  {
    AlignedInPage(addr);
    if Offset(addr, a) < 4 {
      assert WrappingAdd(addr, Offset(addr, a)) == a;
    } else if PageIdx(a) == PageIdx(addr) {
      assert a - addr == PageOff(a) - PageOff(addr);
    }
  }

  /** Two bytes stored in turn. */
  lemma TwoStores(m: Flat, addr: u32, b0: byte, b1: byte)
    ensures Write(m, addr, [b0, b1]) == m[addr := b0][WrappingAdd(addr, 1) := b1]
  {
    assert [b0, b1][1..] == [b1] && [b1][1..] == [];
    var m0, next := m[addr := b0], WrappingAdd(addr, 1);
    assert Write(m, addr, [b0, b1]) == Write(m0, next, [b1]);
    assert Write(m0, next, [b1]) == Write(m0[next := b1], WrappingAdd(next, 1), []);
  }

  class PagedMemory {
    var pages: map<nat, array<byte>>

    /** What the memory holds, and the objects it consists of. */
    ghost var flat: Flat
    ghost var Repr: set<object>

    ghost predicate Valid()
      reads this, Repr
      ensures Valid() ==> this in Repr
    {
      && this in Repr
      && (forall i :: i in pages ==> pages[i] in Repr && pages[i].Length == 4096)
      && (forall i, j :: i in pages && j in pages && i != j ==> pages[i] != pages[j])
      && (forall a: u32 :: flat[a] == if PageIdx(a) in pages then pages[PageIdx(a)][PageOff(a)] else 0)
    }

    constructor ()
      ensures Valid() && fresh(Repr)
      ensures forall a: u32 :: flat[a] == 0
    {
      pages := map[];
      flat := seq(0x1_0000_0000, _ => 0);
      Repr := {this};
    }

    /** The page of an address, allocated as zeros when absent: allocation does not show. */
    method PageMut(idx: nat) returns (page: array<byte>)
      requires Valid()
      modifies this
      ensures Valid() && fresh(Repr - old(Repr)) && flat == old(flat)
      ensures idx in pages && page == pages[idx] && page in Repr
      ensures forall i :: i in old(pages) ==> i in pages && pages[i] == old(pages)[i]
    {
      if idx !in pages {
        var zeros := new byte[4096](_ => 0);
        pages := pages[idx := zeros];
        Repr := Repr + {zeros};
      }
      page := pages[idx];
    }

    method ReadU8(addr: u32) returns (v: byte)
      requires Valid()
      ensures v == flat[addr]
    {
      if PageIdx(addr) in pages {
        v := pages[PageIdx(addr)][PageOff(addr)];
      } else {
        v := 0;
      }
    }

    method WriteU8(addr: u32, val: byte)
      requires Valid()
      modifies Repr
      ensures Valid() && fresh(Repr - old(Repr))
      ensures flat == old(flat)[addr := val]
    {
      var page := PageMut(PageIdx(addr));
      page[PageOff(addr)] := val;
      flat := flat[addr := val];
      forall a: u32 ensures PageIdx(a) == PageIdx(addr) && PageOff(a) == PageOff(addr) ==> a == addr {
        AddressSplit(a, addr);
      }
    }

    method ReadU16(addr: u32) returns (v: nat)
      requires Valid()
      ensures v == HalfAt(flat, addr)
    {
      var lo := ReadU8(addr);
      var hi := ReadU8(WrappingAdd(addr, 1));
      assert Read(flat, addr, 2) == [lo, hi];
      v := Join2(lo, hi);
    }

    /** Aligned reads look at one page only; the others go byte by byte, wrapping. */
    method ReadU32(addr: u32) returns (v: u32)
      requires Valid()
      ensures v == WordAt(flat, addr)
    {
      ghost var word := Read(flat, addr, 4);
      assert word == [flat[addr], flat[WrappingAdd(addr, 1)], flat[WrappingAdd(addr, 2)], flat[WrappingAdd(addr, 3)]];
      if addr % 4 == 0 {
        AlignedInPage(addr);
        if PageIdx(addr) in pages {
          var p, o := pages[PageIdx(addr)], PageOff(addr);
          assert word == [p[o], p[o + 1], p[o + 2], p[o + 3]];
          v := Join4(p[o], p[o + 1], p[o + 2], p[o + 3]);
        } else {
          assert word == [0, 0, 0, 0];
          FourBytes(0, 0, 0, 0);
          v := 0;
        }
      } else {
        var b0 := ReadU8(addr);
        var b1 := ReadU8(WrappingAdd(addr, 1));
        var b2 := ReadU8(WrappingAdd(addr, 2));
        var b3 := ReadU8(WrappingAdd(addr, 3));
        v := Join4(b0, b1, b2, b3);
      }
    }

    method WriteU16(addr: u32, val: nat)
      requires Valid() && val < 0x1_0000
      modifies Repr
      ensures Valid() && fresh(Repr - old(Repr))
      ensures flat == Write(old(flat), addr, ToLe(val, 2))
    {
      LeBytes(val);
      TwoStores(flat, addr, val % 0x100, val / 0x100 % 0x100);
      WriteU8(addr, val % 0x100);
      WriteU8(WrappingAdd(addr, 1), val / 0x100 % 0x100);
    }

    /** Aligned writes go to one page; the others go byte by byte, wrapping. */
    method WriteU32(addr: u32, val: u32)
      requires Valid()
      modifies Repr
      ensures Valid() && fresh(Repr - old(Repr))
      ensures flat == Write(old(flat), addr, ToLe(val, 4))
    {
      var bs := ToLe(val, 4);
      if addr % 4 == 0 {
        StoreAligned(addr, bs);
      } else {
        WriteSlice(addr, bs);
      }
    }

    /** The four bytes of an aligned word, stored in its page. */
    method StoreAligned(addr: u32, bs: seq<byte>)
      requires Valid() && addr % 4 == 0 && |bs| == 4
      modifies Repr
      ensures Valid() && fresh(Repr - old(Repr))
      ensures flat == Write(old(flat), addr, bs)
    {
      hide Write;
      AlignedInPage(addr);
      var o := PageOff(addr);
      var page := PageMut(PageIdx(addr));
      page[o], page[o + 1], page[o + 2], page[o + 3] := bs[0], bs[1], bs[2], bs[3];
      flat := Write(flat, addr, bs);
      forall a: u32 ensures flat[a] == if PageIdx(a) in pages then pages[PageIdx(a)][PageOff(a)] else 0 {
        WriteAt(old(flat), addr, bs, a);
        AlignedStore(addr, a);
      }
    }

    /** `write_slice`, and the loop of the unaligned `write_u32`. */
    method WriteSlice(addr: u32, data: seq<byte>)
      requires Valid()
      modifies Repr
      ensures Valid() && fresh(Repr - old(Repr))
      ensures flat == Write(old(flat), addr, data)
    {
      assert data[..0] == [];
      for i := 0 to |data|
        invariant Valid() && fresh(Repr - old(Repr))
        invariant flat == Write(old(flat), addr, data[..i])
      {
        assert data[..i + 1] == data[..i] + [data[i]];
        WriteAppend(old(flat), addr, data[..i], data[i]);
        WriteU8(WrappingAdd(addr, i), data[i]);
      }
      assert data[..|data|] == data;
    }

    method ReadVec(addr: u32, len: nat) returns (v: seq<byte>)
      requires Valid()
      ensures v == Read(flat, addr, len)
    {
      v := [];
      for i := 0 to len
        invariant v == Read(flat, addr, i)
      {
        var b := ReadU8(WrappingAdd(addr, i));
        v := v + [b];
      }
    }
  }
}
