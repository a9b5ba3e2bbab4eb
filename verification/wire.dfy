/** Octets, fixed-width integers and the binary layout of a vector set as both
    client variants put it on the wire: a u32 vector count, then for every
    vector a u32 element count followed by the 8-byte images of its values.
    Integers are written in little-endian host order and values are copied as
    raw memory images. A C++ `char` buffer is a `seq<char>` in which every char
    stands for one octet. */
module Wire {
  import opened Outcomes

  const TWO32: int := 0x1_0000_0000

  type Byte = b: int | 0 <= b < 256

  type U32 = n: int | 0 <= n < 0x1_0000_0000

  /** The raw 8-byte memory image of an IEEE 754 binary64 value. The client
      never interprets it; it only copies it between buffers and the socket. */
  type Float64 = s: seq<char> | |s| == 8 witness ['\0', '\0', '\0', '\0', '\0', '\0', '\0', '\0']

  /** `static_cast<uint32_t>` of a size: reduction modulo 2^32. */
  function ToU32(n: nat): (x: U32)
    ensures n < TWO32 ==> x == n
  {
    n % TWO32
  }

  /** The four octets of `x` in the order a little-endian host stores them. */
  function EncodeU32(x: U32): (b: seq<char>)
    ensures |b| == 4
    ensures forall k :: 0 <= k < 4 ==> b[k] as int < 256
    ensures DecodeU32(b) == x
  {
    var q1 := x / 256;
    var q2 := q1 / 256;
    var q3 := q2 / 256;
    [(x % 256) as char, (q1 % 256) as char, (q2 % 256) as char, q3 as char]
  }

  /** Reads four octets back as a little-endian unsigned integer. */
  function DecodeU32(b: seq<char>): nat
    requires |b| == 4
  {
    b[0] as int + 256 * (b[1] as int + 256 * (b[2] as int + 256 * (b[3] as int)))
  }

  /** The images of the values of `v`, back to back, in order. */
  function Images(v: seq<Float64>): (b: seq<char>)
    ensures |b| == 8 * |v|
  {
    if v == [] then [] else Images(v[..|v| - 1]) + v[|v| - 1]
  }

  /** Octet `8 * i + k` of the images is octet `k` of value `i`. */
  lemma {:induction false} ImagesAt(v: seq<Float64>, i: nat, k: nat)
    requires i < |v| && k < 8
    ensures Images(v)[8 * i + k] == v[i][k]
    decreases |v|
  {
    if i < |v| - 1 {
      ImagesAt(v[..|v| - 1], i, k);
    }
  }

  lemma {:induction false} ImagesAppend(a: seq<Float64>, b: seq<Float64>)
    ensures Images(a + b) == Images(a) + Images(b)
    decreases |b|
  {
    if b == [] {
      assert a + b == a;
    } else {
      var b', x := b[..|b| - 1], b[|b| - 1];
      assert (a + b)[..|a + b| - 1] == a + b';
      ImagesAppend(a, b');
    }
  }

  /** Cuts a buffer of whole images back into values. */
  function ImagesToValues(b: seq<char>): (v: seq<Float64>)
    requires |b| % 8 == 0
    ensures |v| == |b| / 8
    ensures Images(v) == b
  {
    if b == [] then []
    else
      var w := ImagesToValues(b[..|b| - 8]);
      var v := w + [b[|b| - 8..]];
      assert v[..|v| - 1] == w;
      assert Images(v) == Images(w) + b[|b| - 8..];
      assert b[..|b| - 8] + b[|b| - 8..] == b;
      v
  }

  lemma ImagesInjective(v: seq<Float64>, w: seq<Float64>)
    requires Images(v) == Images(w)
    ensures v == w
  {
    assert |v| == |w|;
    forall i | 0 <= i < |v|
      ensures v[i] == w[i]
    {
      forall k | 0 <= k < 8
        ensures v[i][k] == w[i][k]
      {
        ImagesAt(v, i, k);
        ImagesAt(w, i, k);
      }
    }
  }

  /** Cutting the images of `v` back into values gives `v`. */
  lemma ValuesOfImages(v: seq<Float64>)
    ensures ImagesToValues(Images(v)) == v
  {
    ImagesInjective(ImagesToValues(Images(v)), v);
  }

  /** One vector on the wire: its u32 element count, then its value images. */
  function Frame(v: seq<Float64>): (f: seq<char>)
    ensures |f| == 4 + 8 * |v|
  {
    EncodeU32(ToU32(|v|)) + Images(v)
  }

  function Frames(vs: seq<seq<Float64>>): seq<char>
  {
    if vs == [] then [] else Frames(vs[..|vs| - 1]) + Frame(vs[|vs| - 1])
  }

  /** The whole vector set on the wire: the u32 vector count, then every frame. */
  function Encode(vs: seq<seq<Float64>>): seq<char>
  {
    EncodeU32(ToU32(|vs|)) + Frames(vs)
  }

  /** 4 + the sum over the vectors of (4 + 8 * element count). */
  function EncodedSize(vs: seq<seq<Float64>>): nat
  {
    if vs == [] then 4 else 4 + 8 * |vs[0]| + EncodedSize(vs[1..])
  }

  lemma FramesSnoc(vs: seq<seq<Float64>>, x: seq<Float64>)
    ensures Frames(vs + [x]) == Frames(vs) + Frame(x)
  {
    assert (vs + [x])[..|vs|] == vs;
  }

  lemma {:induction false} FramesAppend(a: seq<seq<Float64>>, b: seq<seq<Float64>>)
    ensures Frames(a + b) == Frames(a) + Frames(b)
    decreases |b|
  {
    if b == [] {
      assert a + b == a;
    } else {
      var b', x := b[..|b| - 1], b[|b| - 1];
      assert b == b' + [x];
      assert a + b == (a + b') + [x];
      FramesSnoc(a + b', x);
      FramesSnoc(b', x);
      FramesAppend(a, b');
      Associative(Frames(a), Frames(b'), Frame(x));
    }
  }


  lemma Associative(a: seq<char>, b: seq<char>, c: seq<char>)
    ensures (a + b) + c == a + (b + c)
  {
  }

  lemma FramesHead(vs: seq<seq<Float64>>)
    requires vs != []
    ensures Frames(vs) == Frame(vs[0]) + Frames(vs[1..])
  {
    FramesCons(vs[0], vs[1..]);
    assert [vs[0]] + vs[1..] == vs;
  }

  lemma FramesCons(v: seq<Float64>, vs: seq<seq<Float64>>)
    ensures Frames([v] + vs) == Frame(v) + Frames(vs)
  {
    FramesAppend([v], vs);
    assert [v][..0] == [];
    var f := Frame(v);
    assert Frames([v]) == [] + f;
    assert [] + f == f;
  }

  /** The encoded set is 4 + sum of (4 + 8 * length) octets long. */
  lemma {:induction false} EncodeLength(vs: seq<seq<Float64>>)
    ensures |Encode(vs)| == EncodedSize(vs)
  {
    FramesLength(vs);
  }

  lemma {:induction false} FramesLength(vs: seq<seq<Float64>>)
    ensures |Frames(vs)| + 4 == EncodedSize(vs)
    decreases |vs|
  {
    if vs != [] {
      FramesCons(vs[0], vs[1..]);
      assert [vs[0]] + vs[1..] == vs;
      FramesLength(vs[1..]);
    }
  }

  /** Parses `n` frames from the front of `b`; yields the vectors and the
      octets left over. */
  function DecodeFrames(b: seq<char>, n: nat): Option<(seq<seq<Float64>>, seq<char>)>
    decreases n
  {
    if n == 0 then Some(([], b))
    else if |b| < 4 then None
    else
      var size := DecodeU32(b[..4]);
      if |b| < 4 + 8 * size then None
      else match DecodeFrames(b[4 + 8 * size..], n - 1)
        case None => None
        case Some((rest, left)) => Some(([ImagesToValues(b[4..4 + 8 * size])] + rest, left))
  }

  /** Parses a whole encoded vector set; fails on missing or trailing octets. */
  function Decode(b: seq<char>): Option<seq<seq<Float64>>>
  {
    if |b| < 4 then None
    else match DecodeFrames(b[4..], DecodeU32(b[..4]))
      case None => None
      case Some((vs, left)) => if left == [] then Some(vs) else None
  }

  /** Every count of the set fits the u32 fields of the layout. */
  predicate Fits32(vs: seq<seq<Float64>>)
  {
    |vs| < TWO32 && forall i :: 0 <= i < |vs| ==> |vs[i]| < TWO32
  }

  lemma {:induction false} DecodeFramesOfFrames(vs: seq<seq<Float64>>, rest: seq<char>)
    requires forall i :: 0 <= i < |vs| ==> |vs[i]| < TWO32
    ensures DecodeFrames(Frames(vs) + rest, |vs|) == Some((vs, rest))
    decreases |vs|
  {
    if vs != [] {
      var v0, tail := vs[0], vs[1..];
      assert [v0] + tail == vs;
      FramesCons(v0, tail);
      var size := |v0|;
      var head, images, after := EncodeU32(size), Images(v0), Frames(tail) + rest;
      var b := Frames(vs) + rest;
      Associative(head + images, Frames(tail), rest);
      Associative(head, images, after);
      assert b == head + (images + after);
      ThreeParts(head, images, after);
      assert b[..4] == head && b[4..4 + 8 * size] == images && b[4 + 8 * size..] == after;
      ValuesOfImages(v0);
      DecodeFramesOfFrames(tail, rest);
    } else {
      assert Frames(vs) + rest == rest;
    }
  }

  /** The three parts of a concatenation are the slices at their offsets. */
  lemma ThreeParts(x: seq<char>, y: seq<char>, z: seq<char>)
    ensures var s := x + (y + z);
      && s[..|x|] == x && s[|x|..|x| + |y|] == y && s[|x| + |y|..] == z
  {
  }

  /** Decoding an encoded vector set reproduces the count, every element count
      and every value image. */
  lemma DecodeEncode(vs: seq<seq<Float64>>)
    requires Fits32(vs)
    ensures Decode(Encode(vs)) == Some(vs)
  {
    var b := Encode(vs);
    assert b[..4] == EncodeU32(|vs|);
    assert b[4..] == Frames(vs) + [];
    DecodeFramesOfFrames(vs, []);
  }
}
