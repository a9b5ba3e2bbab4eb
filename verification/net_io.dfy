/** The data steps of `NetworkClient`: the line-based input reader, the
    framing of `send_vectors`, the result loop of `receive_results` and the
    text `save_results` writes. Each is a function of its inputs and of the
    scripted peer; the methods of the class are proved to perform them.

    The input file is seen line by line as `std::getline` yields it. A
    number is what `>>` extracts from the front of a line: its first word,
    read by the parser `u32` (for `uint32_t`) or `value` (for `double`). */
module NetIO {
  import opened Outcomes
  import opened Wire
  import opened Strings
  import opened Transport
  import opened NetCommon
  import opened Vectors
  import Connection

  // ---------------------------------------------------------------------
  // read_input_file

  /** `stringstream(line) >> n` for a `uint32_t`: fails on a line with no
      word. */
  function ReadNumber(line: string, u32: Parser<U32>): Option<U32>
  {
    var words := Words(line);
    if words == [] then None else u32(words[0])
  }

  /** The inner loop: `need` more values read from word `pos` on, `acc` the
      values read so far. `Err(j)`: value `j` (counted from 1) is missing or
      does not read. Words after the last value needed are never looked at. */
  function ValuesFrom(words: seq<string>, pos: nat, need: nat, value: Parser<Float64>,
                      acc: seq<Float64>): Result<seq<Float64>, nat>
    decreases need
  {
    if need == 0 then Ok(acc)
    else if pos >= |words| || value(words[pos]).None? then Err(pos + 1)
    else ValuesFrom(words, pos + 1, need - 1, value, acc + [value(words[pos]).value])
  }

  /** One vector from its size line at `at` and the values line after it;
      `number` is its 1-based position, used in the messages. */
  function ReadVector(lines: seq<string>, at: nat, number: nat, u32: Parser<U32>,
                      value: Parser<Float64>): (r: Result<seq<Float64>, Thrown>)
    ensures r.Err? ==> StepOf(r.error) == ReadInputStep
  {
    if at >= |lines| then Err(NoSizeLine(number))
    else match ReadNumber(lines[at], u32)
      case None => Err(BadSize(number))
      case Some(size) =>
        if at + 1 >= |lines| then Err(NoValuesLine(number))
        else match ValuesFrom(Words(lines[at + 1]), 0, size, value, [])
          case Err(j) => Err(BadValue(j, number))
          case Ok(v) => Ok(v)
  }

  /** The outer loop: `n` more vectors from line `at` on after `acc`. */
  function VectorsFrom(lines: seq<string>, at: nat, n: nat, u32: Parser<U32>, value: Parser<Float64>,
                       acc: seq<seq<Float64>>): (r: Result<seq<seq<Float64>>, Thrown>)
    ensures r.Err? ==> StepOf(r.error) == ReadInputStep
    decreases n
  {
    if n == 0 then Ok(acc)
    else match ReadVector(lines, at, |acc| + 1, u32, value)
      case Err(e) => Err(e)
      case Ok(v) => VectorsFrom(lines, at + 2, n - 1, u32, value, acc + [v])
  }

  /** `read_input_file` on the contents of the file (`None`: it did not
      open): a count line, then per vector a size line and a values line. */
  function ParseInput(content: Option<string>, u32: Parser<U32>, value: Parser<Float64>): (r: Result<seq<seq<Float64>>, Thrown>)
    ensures r.Err? ==> StepOf(r.error) == ReadInputStep
  {
    if content.None? then Err(InputMissing)
    else
      var lines := Lines(content.value);
      if lines == [] then Err(NoCountLine)
      else match ReadNumber(lines[0], u32)
        case None => Err(BadCount)
        case Some(count) => VectorsFrom(lines, 1, count, u32, value, [])
  }

  /** The inner loop reads exactly the first `need` words from `pos` on when
      they are all there and all read, and otherwise fails at the first one
      that is missing or does not read. */
  lemma {:induction false} ValuesFromMeaning(words: seq<string>, pos: nat, need: nat, value: Parser<Float64>,
                                             acc: seq<Float64>)
    requires pos <= |words|
    ensures ValuesReadable(words, pos, need, value) ==>
      ValuesFrom(words, pos, need, value, acc) == Ok(acc + ValuesAt(words, pos, need, value))
    ensures !ValuesReadable(words, pos, need, value) ==>
      var r := ValuesFrom(words, pos, need, value, acc);
      && r.Err? && pos < r.error <= pos + need
      && (r.error - 1 >= |words| || value(words[r.error - 1]).None?)
      && ValuesReadable(words, pos, r.error - 1 - pos, value)
    decreases need
  {
    if need == 0 {
      assert ValuesAt(words, pos, need, value) == [];
      assert acc + [] == acc;
    } else if pos >= |words| || value(words[pos]).None? {
      assert ValuesFrom(words, pos, need, value, acc) == Err(pos + 1);
      assert ValuesReadable(words, pos, 0, value);
    } else {
      var x := value(words[pos]).value;
      assert ValuesFrom(words, pos, need, value, acc) == ValuesFrom(words, pos + 1, need - 1, value, acc + [x]);
      ValuesFromMeaning(words, pos + 1, need - 1, value, acc + [x]);
      if ValuesReadable(words, pos, need, value) {
        assert ValuesReadable(words, pos + 1, need - 1, value);
        var rest := ValuesAt(words, pos + 1, need - 1, value);
        assert ValuesAt(words, pos, need, value) == [x] + rest;
        assert acc + [x] + rest == acc + ([x] + rest);
      } else {
        assert !ValuesReadable(words, pos + 1, need - 1, value);
        var r := ValuesFrom(words, pos + 1, need - 1, value, acc + [x]);
        assert ValuesReadable(words, pos + 1, r.error - 1 - (pos + 1), value);
        assert ValuesReadable(words, pos, r.error - 1 - pos, value);
      }
    }
  }

  /** A successful read holds as many vectors as the count line declares;
      vector `i` is what its size line and its values line read as. */
  lemma {:induction false} VectorsFromShape(lines: seq<string>, at: nat, n: nat, u32: Parser<U32>,
                                            value: Parser<Float64>, acc: seq<seq<Float64>>)
    ensures var r := VectorsFrom(lines, at, n, u32, value, acc);
      r.Ok? ==>
        && |r.value| == |acc| + n && acc <= r.value
        && forall i :: |acc| <= i < |r.value| ==>
             ReadVector(lines, at + 2 * (i - |acc|), i + 1, u32, value) == Ok(r.value[i])
    decreases n
  {
    if n > 0 {
      var v := ReadVector(lines, at, |acc| + 1, u32, value);
      if v.Err? {
        VectorsFromFails(lines, at, n, u32, value, acc, v.error);
      } else {
        var acc' := acc + [v.value];
        VectorsFromShape(lines, at + 2, n - 1, u32, value, acc');
        var r := VectorsFrom(lines, at + 2, n - 1, u32, value, acc');
        VectorsFromStep(lines, at, n, u32, value, acc, v.value);
        if r.Ok? {
          PrefixSnoc(acc, v.value, r.value);
          forall i | |acc'| <= i < |r.value|
            ensures ReadVector(lines, at + 2 * (i - |acc|), i + 1, u32, value) == Ok(r.value[i])
          {
            assert at + 2 * (i - |acc|) == (at + 2) + 2 * (i - |acc'|);
          }
        }
      }
    }
  }

  lemma PrefixSnoc(acc: seq<seq<Float64>>, v: seq<Float64>, all: seq<seq<Float64>>)
    requires acc + [v] <= all
    ensures acc <= all && all[|acc|] == v
  {
    assert all[..|acc|] == (acc + [v])[..|acc|] == acc;
    assert all[|acc|] == (acc + [v])[|acc|];
  }

  /** `read_input_file` succeeds only when the first line declares the number
      of vectors it returns; vector `i` has exactly the size its size line
      declares and holds the values of the first words of its values line,
      in order. */
  lemma ParseInputShape(content: string, u32: Parser<U32>, value: Parser<Float64>)
    ensures var r := ParseInput(Some(content), u32, value);
      var lines := Lines(content);
      r.Ok? ==>
        && lines != [] && ReadNumber(lines[0], u32) == Some(|r.value|)
        && forall i :: 0 <= i < |r.value| ==>
             && 2 * i + 2 < |lines|
             && ReadNumber(lines[2 * i + 1], u32) == Some(|r.value[i]|)
             && ValuesReadable(Words(lines[2 * i + 2]), 0, |r.value[i]|, value)
             && r.value[i] == ValuesAt(Words(lines[2 * i + 2]), 0, |r.value[i]|, value)
  {
    var r := ParseInput(Some(content), u32, value);
    if r.Ok? {
      var lines := Lines(content);
      var count := ReadNumber(lines[0], u32).value;
      VectorsFromShape(lines, 1, count, u32, value, []);
      VectorLines(lines, count, u32, value, r.value);
    }
  }

  /** What the outer loop reads from line 1 on: vector `i` from lines
      `2i + 1` and `2i + 2`. */
  lemma VectorLines(lines: seq<string>, count: nat, u32: Parser<U32>, value: Parser<Float64>,
                    vs: seq<seq<Float64>>)
    requires VectorsFrom(lines, 1, count, u32, value, []) == Ok(vs)
    ensures forall i :: 0 <= i < |vs| ==>
      && 2 * i + 2 < |lines|
      && ReadNumber(lines[2 * i + 1], u32) == Some(|vs[i]|)
      && ValuesReadable(Words(lines[2 * i + 2]), 0, |vs[i]|, value)
      && vs[i] == ValuesAt(Words(lines[2 * i + 2]), 0, |vs[i]|, value)
  {
    forall i | 0 <= i < |vs|
      ensures && 2 * i + 2 < |lines|
              && ReadNumber(lines[2 * i + 1], u32) == Some(|vs[i]|)
              && ValuesReadable(Words(lines[2 * i + 2]), 0, |vs[i]|, value)
              && vs[i] == ValuesAt(Words(lines[2 * i + 2]), 0, |vs[i]|, value)
    {
      VectorLine(lines, count, u32, value, vs, i);
    }
  }

  lemma VectorLine(lines: seq<string>, count: nat, u32: Parser<U32>, value: Parser<Float64>,
                   vs: seq<seq<Float64>>, i: nat)
    requires VectorsFrom(lines, 1, count, u32, value, []) == Ok(vs) && i < |vs|
    ensures && 2 * i + 2 < |lines|
            && ReadNumber(lines[2 * i + 1], u32) == Some(|vs[i]|)
            && ValuesReadable(Words(lines[2 * i + 2]), 0, |vs[i]|, value)
            && vs[i] == ValuesAt(Words(lines[2 * i + 2]), 0, |vs[i]|, value)
  {
    VectorsFromShape(lines, 1, count, u32, value, []);
    assert ReadVector(lines, 1 + 2 * i, i + 1, u32, value) == Ok(vs[i]);
    ReadVectorOk(lines, 1 + 2 * i, i + 1, u32, value, vs[i]);
  }

  lemma ReadVectorOk(lines: seq<string>, at: nat, number: nat, u32: Parser<U32>, value: Parser<Float64>,
                     v: seq<Float64>)
    requires ReadVector(lines, at, number, u32, value) == Ok(v)
    ensures at + 1 < |lines| && ReadNumber(lines[at], u32) == Some(|v|)
    ensures ValuesReadable(Words(lines[at + 1]), 0, |v|, value)
    ensures v == ValuesAt(Words(lines[at + 1]), 0, |v|, value)
  {
    var size := ReadNumber(lines[at], u32).value;
    var words := Words(lines[at + 1]);
    ValuesFromMeaning(words, 0, size, value, []);
    assert [] + ValuesAt(words, 0, size, value) == ValuesAt(words, 0, size, value);
  }

  /** A file that does not open, is empty, or whose first line does not read
      as a `uint32_t` fails before any vector is read. */
  lemma ParseInputRejectsCount(content: Option<string>, u32: Parser<U32>, value: Parser<Float64>)
    ensures content.None? ==> ParseInput(content, u32, value) == Err(InputMissing)
    ensures content.Some? && Lines(content.value) == [] ==> ParseInput(content, u32, value) == Err(NoCountLine)
    ensures content.Some? && Lines(content.value) != [] && ReadNumber(Lines(content.value)[0], u32).None? ==>
      ParseInput(content, u32, value) == Err(BadCount)
  {
  }

  /** A first line holding one word that does not read as a count throws
      the count-format error. */
  lemma BadCountLine(line: string, u32: Parser<U32>, value: Parser<Float64>)
    requires line != [] && '\n' !in line && forall k :: 0 <= k < |line| ==> !IsSpace(line[k])
    requires u32(line) == None
    ensures ParseInput(Some(line + "\n"), u32, value) == Err(BadCount)
  {
    Connection.CutAtNewline(line);
    assert Lines(line + "\n") == [line] by {
      assert (line + "\n")[|line| + 1..] == [];
    }
    WordsOfWord(line);
  }

  /** The file of the tests whose first line is "not_a_number". */
  lemma NotANumber(u32: Parser<U32>, value: Parser<Float64>)
    requires u32("not_a_number") == None
    ensures ParseInput(Some("not_a_number\n"), u32, value) == Err(BadCount)
  {
    var line := "not_a_number";
    assert line + "\n" == "not_a_number\n";
    BadCountLine(line, u32, value);
  }

  /** A word on its own is its only word. */
  lemma WordsOfWord(w: string)
    requires w != [] && forall k :: 0 <= k < |w| ==> !IsSpace(w[k])
    ensures Words(w) == [w]
  {
    WordAtWhole(w);
    assert w[|w|..] == [];
  }

  lemma {:induction false} WordAtWhole(w: string)
    requires forall k :: 0 <= k < |w| ==> !IsSpace(w[k])
    ensures WordAt(w) == w
  {
    if w != [] {
      WordAtWhole(w[1..]);
    }
  }

  /** The values of a vector the way `>>` reads them back. */
  function Shown(v: seq<Float64>, showValue: Float64 -> string): (ws: seq<string>)
    ensures |ws| == |v|
  {
    seq(|v|, j requires 0 <= j < |v| => showValue(v[j]))
  }

  /** The printers and the parsers agree. */
  ghost predicate Inverse32(u32: Parser<U32>, value: Parser<Float64>, showU32: U32 -> string, showValue: Float64 -> string)
  {
    (forall n: U32 :: u32(showU32(n)) == Some(n)) && (forall x: Float64 :: value(showValue(x)) == Some(x))
  }

  /** Lines `at`, `at + 2`, ... start with the sizes of the vectors and lines
      `at + 1`, `at + 3`, ... start with their values; anything may follow on
      each line. */
  predicate LaidOut(lines: seq<string>, at: nat, vs: seq<seq<Float64>>, showU32: U32 -> string,
                    showValue: Float64 -> string)
    decreases |vs|
  {
    if vs == [] then at <= |lines|
    else
      && at + 1 < |lines| && |vs[0]| < TWO32
      && [showU32(|vs[0]|)] <= Words(lines[at]) && Shown(vs[0], showValue) <= Words(lines[at + 1])
      && LaidOut(lines, at + 2, vs[1..], showU32, showValue)
  }

  /** Reading vectors laid out line by line gives them back, whatever else
      follows on their lines. */
  lemma {:induction false} VectorsFromLayout(lines: seq<string>, at: nat, vs: seq<seq<Float64>>,
                                             u32: Parser<U32>, value: Parser<Float64>,
                                             showU32: U32 -> string, showValue: Float64 -> string,
                                             acc: seq<seq<Float64>>)
    requires Inverse32(u32, value, showU32, showValue)
    requires LaidOut(lines, at, vs, showU32, showValue)
    ensures VectorsFrom(lines, at, |vs|, u32, value, acc) == Ok(acc + vs)
    decreases |vs|
  {
    if vs == [] {
      assert acc + vs == acc;
    } else {
      var v := vs[0];
      ReadVectorLayout(lines, at, |acc| + 1, v, u32, value, showU32, showValue);
      VectorsFromStep(lines, at, |vs|, u32, value, acc, v);
      VectorsFromLayout(lines, at + 2, vs[1..], u32, value, showU32, showValue, acc + [v]);
      ConsTail(acc, vs);
    }
  }

  lemma VectorsFromFails(lines: seq<string>, at: nat, n: nat, u32: Parser<U32>, value: Parser<Float64>,
                         acc: seq<seq<Float64>>, e: Thrown)
    requires n > 0 && ReadVector(lines, at, |acc| + 1, u32, value) == Err(e)
    ensures VectorsFrom(lines, at, n, u32, value, acc) == Err(e)
  {
  }

  lemma VectorsFromStep(lines: seq<string>, at: nat, n: nat, u32: Parser<U32>, value: Parser<Float64>,
                        acc: seq<seq<Float64>>, v: seq<Float64>)
    requires n > 0 && ReadVector(lines, at, |acc| + 1, u32, value) == Ok(v)
    ensures VectorsFrom(lines, at, n, u32, value, acc) == VectorsFrom(lines, at + 2, n - 1, u32, value, acc + [v])
  {
  }

  /** One vector laid out on two lines reads back. */
  lemma ReadVectorLayout(lines: seq<string>, at: nat, number: nat, v: seq<Float64>,
                         u32: Parser<U32>, value: Parser<Float64>,
                         showU32: U32 -> string, showValue: Float64 -> string)
    requires Inverse32(u32, value, showU32, showValue)
    requires at + 1 < |lines| && |v| < TWO32
    requires [showU32(|v|)] <= Words(lines[at]) && Shown(v, showValue) <= Words(lines[at + 1])
    ensures ReadVector(lines, at, number, u32, value) == Ok(v)
  {
    assert Words(lines[at])[0] == showU32(|v|);
    assert ReadNumber(lines[at], u32) == Some(|v|);
    var words := Words(lines[at + 1]);
    forall j | 0 <= j < |v|
      ensures value(words[j]) == Some(v[j])
    {
      assert words[j] == Shown(v, showValue)[j];
    }
    assert ValuesReadable(words, 0, |v|, value);
    ValuesFromMeaning(words, 0, |v|, value, []);
    assert ValuesAt(words, 0, |v|, value) == v;
    assert [] + v == v;
  }

  /** A file whose first line starts with the count of a vector set, and
      whose following lines start with its sizes and values, reads back as
      that set: every vector, every value, in order. */
  lemma ParseInputLayout(content: string, vs: seq<seq<Float64>>, u32: Parser<U32>, value: Parser<Float64>,
                         showU32: U32 -> string, showValue: Float64 -> string)
    requires Inverse32(u32, value, showU32, showValue) && |vs| < TWO32
    requires var lines := Lines(content);
      lines != [] && [showU32(|vs|)] <= Words(lines[0]) && LaidOut(lines, 1, vs, showU32, showValue)
    ensures ParseInput(Some(content), u32, value) == Ok(vs)
  {
    var lines := Lines(content);
    assert ReadNumber(lines[0], u32) == Some(|vs|);
    VectorsFromLayout(lines, 1, vs, u32, value, showU32, showValue, []);
    assert [] + vs == vs;
  }

  // ---------------------------------------------------------------------
  // send_vectors

  /** The loop of `send_vectors` from vector `done + 1` on: per vector one
      `send` of its u32 size and one of its value images; a result <= 0
      throws. A short send is not noticed. */
  function SendVectorsFrom(p: Peer, vs: seq<seq<Float64>>, done: nat): (r: (Option<Thrown>, Peer))
    ensures r.1.inbound == p.inbound && p.wire <= r.1.wire
    ensures r.0.Some? ==> StepOf(r.0.value) == SendStep
    decreases |vs|
  {
    if vs == [] then (None, p)
    else
      var s := Send(p, EncodeU32(ToU32(|vs[0]|)));
      if s.0 <= 0 then (Some(SizeNotSent(done + 1)), s.1)
      else
        var w := Send(s.1, Images(vs[0]));
        if w.0 <= 0 then (Some(ValuesNotSent(done + 1)), w.1)
        else SendVectorsFrom(w.1, vs[1..], done + 1)
  }

  /** `send_vectors`: one `send` of the u32 count, then the loop. */
  function NetSendVectors(p: Peer, vs: seq<seq<Float64>>): (r: (Option<Thrown>, Peer))
    ensures r.1.inbound == p.inbound && p.wire <= r.1.wire
    ensures r.0.Some? ==> StepOf(r.0.value) == SendStep
  {
    var c := Send(p, EncodeU32(ToU32(|vs|)));
    if c.0 <= 0 then (Some(CountNotSent), c.1) else SendVectorsFrom(c.1, vs, 0)
  }

  /** A vector with no values makes the loop throw, at the latest at that
      vector: its zero-length value send returns 0. */
  lemma {:induction false} SendVectorsFromEmpty(p: Peer, vs: seq<seq<Float64>>, done: nat, i: nat)
    requires i < |vs| && vs[i] == []
    ensures SendVectorsFrom(p, vs, done).0.Some?
    decreases |vs|
  {
    var s := Send(p, EncodeU32(ToU32(|vs[0]|)));
    if s.0 > 0 {
      var w := Send(s.1, Images(vs[0]));
      if w.0 > 0 {
        assert i > 0;
        assert vs[1..][i - 1] == vs[i];
        SendVectorsFromEmpty(w.1, vs[1..], done + 1, i - 1);
      }
    }
  }

  /** `send_vectors` throws whenever the set holds an empty vector. */
  lemma SendVectorsEmptyThrows(p: Peer, vs: seq<seq<Float64>>, i: nat)
    requires i < |vs| && vs[i] == []
    ensures NetSendVectors(p, vs).0.Some?
  {
    var c := Send(p, EncodeU32(ToU32(|vs|)));
    if c.0 > 0 {
      SendVectorsFromEmpty(c.1, vs, 0, i);
    }
  }

  lemma {:induction false} SendVectorsFromWhole(p: Peer, vs: seq<seq<Float64>>, done: nat)
    requires TakesWhole(p.quota, vs)
    ensures var r := SendVectorsFrom(p, vs, done);
      r.0.None? && r.1.wire == p.wire + Frames(vs)
    decreases |vs|
  {
    if vs == [] {
      assert p.wire + Frames(vs) == p.wire;
    } else {
      var next := p.(quota := p.quota[2..], wire := p.wire + Frame(vs[0]));
      SendFrameWhole(p, vs, done);
      SendVectorsFromWhole(next, vs[1..], done + 1);
      FramesHead(vs);
      Associative(p.wire, Frame(vs[0]), Frames(vs[1..]));
    }
  }

  /** One pass of the loop on a socket that takes both sends whole. */
  lemma SendFrameWhole(p: Peer, vs: seq<seq<Float64>>, done: nat)
    requires vs != [] && |p.quota| >= 2 && p.quota[0] >= 4 && p.quota[1] >= 8 * |vs[0]| && vs[0] != []
    ensures SendVectorsFrom(p, vs, done)
         == SendVectorsFrom(p.(quota := p.quota[2..], wire := p.wire + Frame(vs[0])), vs[1..], done + 1)
  {
    var v := vs[0];
    var size := EncodeU32(ToU32(|v|));
    SendWhole(p, size);
    var s := Send(p, size);
    SendWhole(s.1, Images(v));
    var w := Send(s.1, Images(v));
    assert w.1.quota == p.quota[2..];
    assert w.1.wire == p.wire + Frame(v);
  }

  /** On a socket that accepts the count and every later send whole, and with
      no empty vector, the octets sent are exactly the encoded set: the u32
      count, then per vector its u32 size and its value images. */
  lemma SendVectorsWhole(p: Peer, vs: seq<seq<Float64>>)
    requires |p.quota| >= 1 && p.quota[0] >= 4 && TakesWhole(p.quota[1..], vs)
    ensures var r := NetSendVectors(p, vs);
      r.0.None? && r.1.wire == p.wire + Encode(vs)
  {
    var count := EncodeU32(ToU32(|vs|));
    SendWhole(p, count);
    var c := Send(p, count);
    SendVectorsFromWhole(c.1, vs, 0);
    Associative(p.wire, count, Frames(vs));
  }

  /** A short send goes unnoticed: a socket that takes only one octet of the
      count lets `send_vectors` succeed with three octets of the count
      missing from the wire. */
  lemma SendVectorsShortCount(x: Float64, wire: seq<char>)
    ensures var p := Peer([], [1, 4, 8], wire);
      var r := NetSendVectors(p, [[x]]);
      && r.0.None?
      && r.1.wire == wire + EncodeU32(1)[..1] + Frame([x])
      && r.1.wire != wire + Encode([[x]])
  {
    var p := Peer([], [1, 4, 8], wire);
    var vs := [[x]];
    var c := Send(p, EncodeU32(1));
    assert c.0 == 1 && c.1.wire == wire + EncodeU32(1)[..1] && c.1.quota == [4, 8];
    assert TakesWhole(c.1.quota, vs) by {
      assert TakesWhole(c.1.quota[2..], vs[1..]);
    }
    SendVectorsFromWhole(c.1, vs, 0);
    assert Frames(vs) == Frame([x]) by {
      FramesCons([x], []);
      assert [[x]] + [] == vs;
    }
    EncodeLength(vs);
    assert |Encode(vs)| == 16;
  }

  // ---------------------------------------------------------------------
  // receive_results

  /** The `double` a `recv` of `|bytes|` octets leaves: the octets received
      over the front of what the variable held before. */
  function Fill(bytes: seq<char>, before: Float64): (x: Float64)
    requires 1 <= |bytes| <= 8
    ensures x[..|bytes|] == bytes
    ensures x[|bytes|..] == before[|bytes|..]
  {
    bytes + before[|bytes|..]
  }

  /** The loop of `receive_results`: `n` more results after `acc`, each one
      `recv` of at most 8 octets; a result <= 0 throws. `stale(i)` is what the
      uninitialised variable of iteration `i` held. */
  function ReceiveFrom(p: Peer, n: nat, stale: nat -> Float64, acc: seq<Float64>): (r: (Result<seq<Float64>, Thrown>, Peer))
    ensures r.1.wire == p.wire && r.1.quota == p.quota
    ensures r.0.Err? ==> StepOf(r.0.error) == ReceiveStep
    decreases n
  {
    if n == 0 then (Ok(acc), p)
    else
      var g := Recv(p, 8, Blocking);
      if !g.0.Got? then (Err(NoResult(|acc| + 1)), g.1)
      else ReceiveFrom(g.1, n - 1, stale, acc + [Fill(g.0.bytes, stale(|acc|))])
  }

  /** `receive_results(expected)`. */
  function NetReceiveResults(p: Peer, expected: U32, stale: nat -> Float64): (Result<seq<Float64>, Thrown>, Peer)
  {
    ReceiveFrom(p, expected, stale, [])
  }

  /** Either exactly `n` more results are appended, or the loop throws at
      one of them, and then only because the stream had ended. */
  lemma {:induction false} ReceiveFromCount(p: Peer, n: nat, stale: nat -> Float64, acc: seq<Float64>)
    ensures var r := ReceiveFrom(p, n, stale, acc);
      && (r.0.Ok? ==> |r.0.value| == |acc| + n && acc <= r.0.value)
      && (r.0.Err? ==>
            && r.0.error.NoResult? && |acc| < r.0.error.result <= |acc| + n
            && Stream(r.1.inbound) == [])
    decreases n
  {
    if n > 0 {
      var g := Recv(p, 8, Blocking);
      RecvStream(p, 8, Blocking);
      if g.0.Got? {
        var acc' := acc + [Fill(g.0.bytes, stale(|acc|))];
        ReceiveFromCount(g.1, n - 1, stale, acc');
        var r := ReceiveFrom(g.1, n - 1, stale, acc');
        if r.0.Ok? {
          assert r.0.value[..|acc|] == r.0.value[..|acc'|][..|acc|];
        }
      }
    }
  }

  /** Results that arrive as whole chunks come out in arrival order. */
  lemma {:induction false} ReceiveFromChunks(rs: seq<Float64>, rest: seq<Arrival>, quota: seq<int>,
                                             wire: seq<char>, stale: nat -> Float64, acc: seq<Float64>)
    ensures ReceiveFrom(Peer(Chunks(rs) + rest, quota, wire), |rs|, stale, acc) == (Ok(acc + rs), Peer(rest, quota, wire))
    decreases |rs|
  {
    var p := Peer(Chunks(rs) + rest, quota, wire);
    if rs == [] {
      assert Chunks(rs) + rest == rest;
      assert acc + rs == acc;
    } else {
      var x := rs[0];
      assert p.inbound[0] == Chunk(x);
      assert p.inbound[1..] == Chunks(rs[1..]) + rest;
      assert Recv(p, 8, Blocking) == (Got(x), Peer(Chunks(rs[1..]) + rest, quota, wire));
      assert Fill(x, stale(|acc|)) == x;
      ReceiveFromChunks(rs[1..], rest, quota, wire, stale, acc + [x]);
      assert (acc + [x]) + rs[1..] == acc + rs;
    }
  }

  /** A result that arrives short is taken anyway: three octets give a value
      whose other five octets are whatever the variable held. */
  lemma ReceiveShortResult(b: seq<char>, stale: nat -> Float64, wire: seq<char>)
    requires |b| == 3
    ensures var r := NetReceiveResults(Peer([Chunk(b)], [], wire), 1, stale);
      r.0 == Ok([b + stale(0)[3..]])
  {
    var p := Peer([Chunk(b)], [], wire);
    assert p.inbound[0] == Chunk(b) && p.inbound[1..] == [];
    assert b != [] && |b| <= 8;
    var g := Recv(p, 8, Blocking);
    assert g == (Got(b), Peer([], [], wire));
    var r := ReceiveFrom(p, 1, stale, []);
    assert r == ReceiveFrom(g.1, 0, stale, [] + [Fill(b, stale(0))]);
    assert [] + [Fill(b, stale(0))] == [b + stale(0)[3..]];
  }

  // ---------------------------------------------------------------------
  // save_results

  /** The `" " << r` part of the file, one piece per result, in order. */
  function SavedTail(rs: seq<Float64>, fmt: Float64 -> string): string
  {
    if rs == [] then "" else SavedTail(rs[..|rs| - 1], fmt) + " " + fmt(rs[|rs| - 1])
  }

  /** What `save_results` writes: the count, then every result after a space;
      no newline. `fmt` is `operator<<` of a `double`. */
  function SavedText(rs: seq<Float64>, fmt: Float64 -> string): string
  {
    Decimal(|rs|) + SavedTail(rs, fmt)
  }

  /** What `fmt` prints is one word: not empty, no white space. */
  ghost predicate PrintsWords(fmt: Float64 -> string)
  {
    forall x: Float64 :: fmt(x) != [] && forall k :: 0 <= k < |fmt(x)| ==> !IsSpace(fmt(x)[k])
  }

  /** Read back word by word, the saved text is the count followed by the
      printed results in order; the count reads back as the number of
      results. */
  lemma SavedTextWords(rs: seq<Float64>, fmt: Float64 -> string)
    requires PrintsWords(fmt)
    ensures Words(SavedText(rs, fmt)) == [Decimal(|rs|)] + seq(|rs|, i requires 0 <= i < |rs| => fmt(rs[i]))
    ensures DecimalValue(Words(SavedText(rs, fmt))[0]) == |rs|
  {
    SavedTailWords(rs, fmt);
    var d := Decimal(|rs|);
    WordsOfWord(d);
    WordsAppend(d, SavedTail(rs, fmt));
    DecimalRoundTrip(|rs|);
  }

  lemma {:induction false} SavedTailWords(rs: seq<Float64>, fmt: Float64 -> string)
    requires PrintsWords(fmt)
    ensures Words(SavedTail(rs, fmt)) == seq(|rs|, i requires 0 <= i < |rs| => fmt(rs[i]))
    ensures SavedTail(rs, fmt) == [] || SavedTail(rs, fmt)[0] == ' '
    decreases |rs|
  {
    if rs != [] {
      var init, x := rs[..|rs| - 1], rs[|rs| - 1];
      SavedTailWords(init, fmt);
      var t := SavedTail(init, fmt);
      var piece := " " + fmt(x);
      Associative(t, " ", fmt(x));
      WordsAppend(t, piece);
      assert piece[1..] == fmt(x);
      WordsOfWord(fmt(x));
      assert Words(piece) == [fmt(x)];
      assert seq(|rs|, i requires 0 <= i < |rs| => fmt(rs[i]))
          == seq(|init|, i requires 0 <= i < |init| => fmt(init[i])) + [fmt(x)];
    }
  }

  lemma SavedTailSnoc(rs: seq<Float64>, r: Float64, fmt: Float64 -> string)
    ensures SavedTail(rs + [r], fmt) == SavedTail(rs, fmt) + " " + fmt(r)
  {
    assert (rs + [r])[..|rs|] == rs;
  }

  /** No results save as "0"; three results as the count and the three
      printed values, separated by single spaces. */
  lemma SavedTextExamples(x: Float64, y: Float64, z: Float64, fmt: Float64 -> string)
    ensures SavedText([], fmt) == "0"
    ensures SavedText([x, y, z], fmt) == "3 " + fmt(x) + " " + fmt(y) + " " + fmt(z)
  {
    var rs := [x, y, z];
    SavedTailSnoc([], x, fmt);
    SavedTailSnoc([x], y, fmt);
    SavedTailSnoc([x, y], z, fmt);
    assert [] + [x] == [x] && [x] + [y] == [x, y] && [x, y] + [z] == rs;
    assert SavedTail([], fmt) == "";
    assert Decimal(3) == "3";
    ThreePieces(SavedTail(rs, fmt), fmt(x), fmt(y), fmt(z));
  }

  lemma ThreePieces(t: string, a: string, b: string, c: string)
    requires t == "" + " " + a + " " + b + " " + c
    ensures "3" + t == "3 " + a + " " + b + " " + c
  {
  }
}
