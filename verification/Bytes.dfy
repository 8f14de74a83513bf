/** Byte strings, little-endian integers and variable length integers. */
module ByteStrings {
  type byte = x: int | 0 <= x < 256
  type Bytes = seq<byte>

  datatype Option<+T> = None | Some(value: T)

  function Min(a: nat, b: nat): nat {
    if a <= b then a else b
  }

  function Last<T>(s: seq<T>): T
    requires s != []
  {
    s[|s| - 1]
  }

  function AllButLast<T>(s: seq<T>): seq<T>
    requires s != []
  {
    s[..|s| - 1]
  }

  /** Python's `s[:n]`, which never raises. */
  function Take<T>(s: seq<T>, n: nat): seq<T> {
    if n <= |s| then s[..n] else s
  }

  /** Python's `s[n:]`, which never raises. */
  function Drop<T>(s: seq<T>, n: nat): seq<T> {
    if n <= |s| then s[n..] else []
  }

  lemma JoinSlices<T>(s: seq<T>, i: nat, j: nat, k: nat)
    requires i <= j <= k <= |s|
    ensures s[i..j] + s[j..k] == s[i..k]
  {
  }

  lemma DropDrop<T>(s: seq<T>, m: nat, n: nat)
    ensures Drop(Drop(s, m), n) == Drop(s, m + n)
  {
  }

  function Concat<T>(parts: seq<seq<T>>): seq<T> {
    if parts == [] then [] else parts[0] + Concat(parts[1..])
  }

  lemma SliceOfSlice<T>(s: seq<T>, a: nat, r: nat, i: nat, j: nat)
    requires a <= r <= |s| && i <= j <= r - a
    ensures s[a..r][i..j] == s[a + i..a + j]
  {
    var w := s[a..r];
    forall k | 0 <= k < j - i ensures w[i..j][k] == s[a + i..a + j][k] {
      assert w[i..j][k] == w[i + k] == s[a + (i + k)];
    }
  }

  // ----- little-endian integers -----

  function Pow256(k: nat): (p: nat)
    ensures p > 0
  {
    if k == 0 then 1 else 256 * Pow256(k - 1)
  }

  function LittleEndian(s: Bytes): nat {
    if s == [] then 0 else s[0] + 256 * LittleEndian(s[1..])
  }

  function PackLE(n: nat, width: nat): (s: Bytes)
    ensures |s| == width
  {
    if width == 0 then [] else [n % 256] + PackLE(n / 256, width - 1)
  }

  lemma {:induction false} UnpackPackLE(n: nat, width: nat)
    requires n < Pow256(width)
    ensures LittleEndian(PackLE(n, width)) == n
  {
    if width > 0 {
      UnpackPackLE(n / 256, width - 1);
      assert PackLE(n, width)[1..] == PackLE(n / 256, width - 1);
    }
  }

  lemma {:induction false} PackUnpackLE(s: Bytes)
    ensures LittleEndian(s) < Pow256(|s|)
    ensures PackLE(LittleEndian(s), |s|) == s
  {
    if s != [] {
      var rest := LittleEndian(s[1..]);
      PackUnpackLE(s[1..]);
      LowByte(s[0], rest);
      PackOneMore(s[0] + 256 * rest, |s| - 1);
      assert s == [s[0]] + s[1..];
    }
  }

  lemma LowByte(b: byte, rest: nat)
    ensures (b + 256 * rest) % 256 == b && (b + 256 * rest) / 256 == rest
  {
  }

  lemma PackOneMore(n: nat, width: nat)
    ensures PackLE(n, width + 1) == [n % 256] + PackLE(n / 256, width)
  {
  }

  lemma Widths()
    ensures Pow256(1) == 0x100
    ensures Pow256(2) == 0x1_0000
    ensures Pow256(4) == 0x1_0000_0000
    ensures Pow256(8) == 0x1_0000_0000_0000_0000
  {
    assert Pow256(0) == 1;
    assert Pow256(3) == 256 * Pow256(2);
    assert Pow256(5) == 256 * Pow256(4);
    assert Pow256(6) == 256 * Pow256(5);
    assert Pow256(7) == 256 * Pow256(6);
  }

  // ----- variable length integers -----

  /** A decoded varint and the offset just after it. */
  datatype Varint = Varint(value: nat, next: nat)

  /** Bytes that follow the first byte of a varint. */
  function VarintTail(first: byte): nat {
    if first < 253 then 0 else if first == 253 then 2 else if first == 254 then 4 else 8
  }

  /** `None` stands for the IndexError or struct.error of a read beyond the buffer. */
  function UnpackVarint(buf: Bytes, offset: nat): (r: Option<Varint>)
    ensures r.Some? ==> offset < r.value.next <= |buf|
  {
    if offset >= |buf| then
      None
    else
      var n := buf[offset];
      var end := offset + 1 + VarintTail(n);
      if n < 253 then Some(Varint(n, offset + 1))
      else if end > |buf| then None
      else Some(Varint(LittleEndian(buf[offset + 1..end]), end))
  }

  /** The format itself: the first byte is the number, or says how many bytes of it follow, the lowest first. */
  lemma VarintFormat(before: Bytes, s: Bytes, after: Bytes)
    requires |s| == 8
    ensures var at := |before|;
      && (forall n: byte :: n < 253 ==> UnpackVarint(before + [n] + after, at) == Some(Varint(n, at + 1)))
      && UnpackVarint(before + [253] + s[..2] + after, at) == Some(Varint(s[0] + 0x100 * (s[1] as nat), at + 3))
      && UnpackVarint(before + [254] + s[..4] + after, at)
         == Some(Varint(s[0] + 0x100 * (s[1] as nat) + 0x1_0000 * (s[2] as nat) + 0x100_0000 * (s[3] as nat), at + 5))
      && UnpackVarint(before + [255] + s + after, at)
         == Some(Varint(s[0] + 0x100 * (s[1] as nat) + 0x1_0000 * (s[2] as nat) + 0x100_0000 * (s[3] as nat)
                        + 0x1_0000_0000 * (s[4] as nat) + 0x100_0000_0000 * (s[5] as nat)
                        + 0x1_0000_0000_0000 * (s[6] as nat) + 0x100_0000_0000_0000 * (s[7] as nat), at + 9))
  {
    hide LittleEndian;
    var at := |before|;
    LowestFirst(s);
    assert (before + [253] + s[..2] + after)[at + 1..at + 3] == s[..2];
    assert (before + [254] + s[..4] + after)[at + 1..at + 5] == s[..4];
    assert (before + [255] + s + after)[at + 1..at + 9] == s;
  }

  lemma LowestFirst(s: Bytes)
    requires |s| == 8
    ensures LittleEndian(s[..2]) == s[0] + 0x100 * (s[1] as nat)
    ensures LittleEndian(s[..4]) == s[0] + 0x100 * (s[1] as nat) + 0x1_0000 * (s[2] as nat) + 0x100_0000 * (s[3] as nat)
    ensures LittleEndian(s) == s[0] + 0x100 * (s[1] as nat) + 0x1_0000 * (s[2] as nat) + 0x100_0000 * (s[3] as nat)
                               + 0x1_0000_0000 * (s[4] as nat) + 0x100_0000_0000 * (s[5] as nat)
                               + 0x1_0000_0000_0000 * (s[6] as nat) + 0x100_0000_0000_0000 * (s[7] as nat)
  {
    hide LittleEndian;
    FourBytes(s[..4]);
    FourBytes(s[4..]);
    TwoBytes(s[..2]);
    assert s == s[..4] + s[4..];
    LittleEndianFrom4(s);
  }

  lemma TwoBytes(s: Bytes)
    requires |s| == 2
    ensures LittleEndian(s) == s[0] + 0x100 * (s[1] as nat)
  {
    assert s[1..][1..] == [];
    assert LittleEndian(s[1..]) == s[1];
  }

  lemma FourBytes(s: Bytes)
    requires |s| == 4
    ensures LittleEndian(s) == s[0] + 0x100 * (s[1] as nat) + 0x1_0000 * (s[2] as nat) + 0x100_0000 * (s[3] as nat)
  {
    assert s[1..][1..] == s[2..];
    TwoBytes(s[2..]);
    assert LittleEndian(s[1..]) == s[1] + 256 * LittleEndian(s[2..]);
  }

  lemma LittleEndianFrom4(s: Bytes)
    requires |s| >= 4
    ensures LittleEndian(s) == LittleEndian(s[..4]) + 0x1_0000_0000 * LittleEndian(s[4..])
  {
    FourBytes(s[..4]);
    assert s[1..][1..] == s[2..] && s[2..][1..] == s[3..] && s[3..][1..] == s[4..];
    assert LittleEndian(s[3..]) == s[3] + 256 * LittleEndian(s[4..]);
    assert LittleEndian(s[2..]) == s[2] + 256 * LittleEndian(s[3..]);
    assert LittleEndian(s[1..]) == s[1] + 256 * LittleEndian(s[2..]);
  }

  /** Four encodings exist for a small number; a peer may send any that is wide enough. */
  predicate FitsTail(n: nat, tail: nat) {
    match tail
    case 0 => n < 253
    case 2 => n < 0x1_0000
    case 4 => n < 0x1_0000_0000
    case 8 => n < 0x1_0000_0000_0000_0000
    case _ => false
  }

  function PackVarintWide(n: nat, tail: nat): (s: Bytes)
    requires FitsTail(n, tail)
    ensures |s| == 1 + tail
  {
    if tail == 0 then [n]
    else [if tail == 2 then 253 else if tail == 4 then 254 else 255] + PackLE(n, tail)
  }

  /** The width `pack_varint` chooses: the shortest. */
  function ShortestTail(n: nat): nat {
    if n < 253 then 0 else if n < 0x1_0000 then 2 else if n < 0x1_0000_0000 then 4 else 8
  }

  function PackVarint(n: nat): Bytes
    requires n < 0x1_0000_0000_0000_0000
  {
    PackVarintWide(n, ShortestTail(n))
  }

  /** The decoder inverts the encoder at all four widths, wherever the varint stands. */
  lemma UnpackPackVarint(before: Bytes, n: nat, tail: nat, after: Bytes)
    requires FitsTail(n, tail)
    ensures UnpackVarint(before + PackVarintWide(n, tail) + after, |before|)
         == Some(Varint(n, |before| + 1 + tail))
  {
    var p := PackVarintWide(n, tail);
    var buf := before + p + after;
    assert buf[|before|] == p[0];
    if tail > 0 {
      Widths();
      assert buf[|before| + 1..|before| + 1 + tail] == PackLE(n, tail);
      UnpackPackLE(n, tail);
    }
  }

  /** Whatever the decoder accepts is one of the four encodings of the value it returns. */
  lemma PackUnpackVarint(buf: Bytes, o: nat)
    requires UnpackVarint(buf, o).Some?
    ensures var v := UnpackVarint(buf, o).value;
            var tail := VarintTail(buf[o]);
            && FitsTail(v.value, tail)
            && v.next == o + 1 + tail
            && PackVarintWide(v.value, tail) == buf[o..v.next]
  {
    var v := UnpackVarint(buf, o).value;
    Widths();
    PackUnpackLE(buf[o + 1..v.next]);
    assert buf[o..v.next] == [buf[o]] + buf[o + 1..v.next];
  }

  /**
   * Reading inside the window `b[a..r]` and reading at the shifted place in `b` agree
   * exactly on the varints that end inside the window.
   */
  lemma VarintWindow(b: Bytes, a: nat, r: nat, o: nat)
    requires a <= r <= |b|
    ensures UnpackVarint(b[a..r], o) ==
      (match UnpackVarint(b, a + o)
       case None => None
       case Some(v) => if v.next <= r then Some(Varint(v.value, v.next - a)) else None)
  {
    if o < r - a {
      var n := b[a + o];
      assert b[a..r][o] == n;
      var end := o + 1 + VarintTail(n);
      if end <= r - a {
        SliceOfSlice(b, a, r, o + 1, end);
      }
    }
  }
}
