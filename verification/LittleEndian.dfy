/** Bytes as numbers. */
module Octets {
  lemma ByteRoundTrip(x: nat)
    requires x < 256
    ensures (x as bv8) as nat == x
  {
  }
}

/** Little-endian records, as the packed structs of include/fs.h lie in a sector. */
module LittleEndian {
  import opened Common
  import Octets

  function Encode(x: nat, n: nat): seq<Byte> {
    if n == 0 then [] else [(x % 256) as Byte] + Encode(x / 256, n - 1)
  }

  function Decode(s: seq<Byte>): nat {
    if s == [] then 0 else s[0] as nat + 256 * Decode(s[1..])
  }

  function Pow256(n: nat): nat { if n == 0 then 1 else 256 * Pow256(n - 1) }

  lemma {:induction false} EncodeRoundTrip(x: nat, n: nat)
    requires x < Pow256(n)
    ensures |Encode(x, n)| == n && Decode(Encode(x, n)) == x
  {
    if n > 0 {
      Octets.ByteRoundTrip(x % 256);
      EncodeRoundTrip(x / 256, n - 1);
      assert Encode(x, n)[1..] == Encode(x / 256, n - 1);
    }
  }

  /** A number without its `k` lowest bytes. */
  function Without(x: nat, k: nat): nat { if k == 0 then x else Without(x / 256, k - 1) }

  /** The least significant byte comes first. */
  lemma {:induction false} ByteAt(x: nat, n: nat, k: nat)
    requires k < n
    ensures |Encode(x, n)| == n && Encode(x, n)[k] as nat == Without(x, k) % 256
  {
    EncodeLength(x, n);
    if k == 0 {
      Octets.ByteRoundTrip(x % 256);
    } else {
      ByteAt(x / 256, n - 1, k - 1);
      assert Encode(x, n)[k] == Encode(x / 256, n - 1)[k - 1];
    }
  }

  lemma {:induction false} EncodeLength(x: nat, n: nat)
    ensures |Encode(x, n)| == n
  {
    if n > 0 {
      EncodeLength(x / 256, n - 1);
    }
  }

  lemma {:induction false} DecodeRoundTrip(s: seq<Byte>)
    ensures Decode(s) < Pow256(|s|) && Encode(Decode(s), |s|) == s
  {
    if s != [] {
      DecodeRoundTrip(s[1..]);
      ByteIsSmall(s[0]);
      assert Decode(s) % 256 == s[0] as nat && Decode(s) / 256 == Decode(s[1..]);
      assert (s[0] as nat) as Byte == s[0];
      assert s == [s[0]] + s[1..];
    }
  }

  lemma ByteIsSmall(b: Byte)
    ensures 0 <= b as nat < 256
  {
  }

  /** A field of a packed record: how many bytes, holding what. */
  datatype Field = Field(width: nat, value: nat)

  ghost predicate FieldsFit(fs: seq<Field>) {
    forall k :: 0 <= k < |fs| ==> fs[k].value < Pow256(fs[k].width)
  }

  function Record(fs: seq<Field>): seq<Byte> {
    if fs == [] then [] else Encode(fs[0].value, fs[0].width) + Record(fs[1..])
  }

  function Offset(fs: seq<Field>, k: nat): nat
    requires k <= |fs|
  {
    if k == 0 then 0 else fs[0].width + Offset(fs[1..], k - 1)
  }

  lemma {:induction false} OffsetStep(fs: seq<Field>, k: nat)
    requires k < |fs|
    ensures Offset(fs, k + 1) == Offset(fs, k) + fs[k].width
  {
    if k > 0 {
      OffsetStep(fs[1..], k - 1);
    }
  }

  function ReadAt(buf: seq<Byte>, off: nat, n: nat): nat
    requires off + n <= |buf|
  {
    Decode(buf[off..off + n])
  }

  /** Every field of a record reads back from its offset, whatever follows the record. */
  lemma {:induction false} FieldRoundTrip(fs: seq<Field>, k: nat, rest: seq<Byte>)
    requires k < |fs| && FieldsFit(fs)
    ensures Offset(fs, k) + fs[k].width <= |Record(fs) + rest|
    ensures ReadAt(Record(fs) + rest, Offset(fs, k), fs[k].width) == fs[k].value
  {
    var head := Encode(fs[0].value, fs[0].width);
    EncodeRoundTrip(fs[0].value, fs[0].width);
    var buf := Record(fs) + rest;
    var tail := Record(fs[1..]) + rest;
    assert buf == head + tail;
    if k == 0 {
      hide Encode, Decode, Record;
      assert buf[0..fs[0].width] == head;
    } else {
      FieldRoundTrip(fs[1..], k - 1, rest);
      hide Encode, Decode, Record;
      Behind(head, tail, Offset(fs[1..], k - 1), fs[k].width);
    }
  }

  lemma Behind(head: seq<Byte>, tail: seq<Byte>, o: nat, n: nat)
    requires o + n <= |tail|
    ensures (head + tail)[|head| + o..|head| + o + n] == tail[o..o + n]
  {
  }

  lemma {:induction false} RecordLength(fs: seq<Field>)
    requires FieldsFit(fs)
    ensures |Record(fs)| == Offset(fs, |fs|)
  {
    if fs != [] {
      EncodeRoundTrip(fs[0].value, fs[0].width);
      RecordLength(fs[1..]);
    }
  }
}
