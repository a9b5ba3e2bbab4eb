/** The vector set of the class-based client: reading it from a text file,
    checking it, and turning it into the octets the server expects.

    The file is seen as the words `>>` extracts from it. How a word reads as
    a `size_t` or as a `double` is a parameter (`count`, `value`); a word that
    does not read fails the stream. */
module Vectors {
  import opened Outcomes
  import opened Wire
  import opened Strings

  /** A number parser for `>>`: the value a word reads as, or `None` when the
      extraction fails. */
  type Parser<T> = string -> Option<T>

  /** `size` words from `pos` on are all there and all read as values. */
  predicate ValuesReadable(words: seq<string>, pos: nat, size: nat, value: Parser<Float64>)
  {
    pos + size <= |words| && forall j :: pos <= j < pos + size ==> value(words[j]).Some?
  }

  /** The values those words read as, in order. */
  function ValuesAt(words: seq<string>, pos: nat, size: nat, value: Parser<Float64>): (v: seq<Float64>)
    requires ValuesReadable(words, pos, size, value)
    ensures |v| == size
    ensures forall j :: 0 <= j < size ==> Some(v[j]) == value(words[pos + j])
  {
    seq(size, j requires 0 <= j < size => value(words[pos + j]).value)
  }

  /** The vector size a word declares: it must read as a `size_t` other than 0. */
  predicate DeclaresSize(word: string, count: Parser<nat>)
  {
    count(word).Some? && count(word).value > 0
  }

  /** The loop of `readVectorsFromFile` from word `pos` on, with `n` vectors
      still to read and `acc` the vectors pushed so far. Each vector is a
      size word followed by that many value words. Yields whether all `n`
      were read and what `vectors` then holds. */
  function ReadFrom(words: seq<string>, pos: nat, n: nat, count: Parser<nat>, value: Parser<Float64>,
                    acc: seq<seq<Float64>>): (bool, seq<seq<Float64>>)
    decreases n
  {
    if n == 0 then (true, acc)
    else if pos >= |words| || !DeclaresSize(words[pos], count) then (false, acc)
    else
      var size := count(words[pos]).value;
      if !ValuesReadable(words, pos + 1, size, value) then (false, acc)
      else ReadFrom(words, pos + 1 + size, n - 1, count, value, acc + [ValuesAt(words, pos + 1, size, value)])
  }

  /** `readVectorsFromFile` on a file that opened with `content` (`None`: it
      did not open), when `vectors` held `prior`. Every failure of the source
      calls `exitWithError`, which ends the process; here it is the result
      `false`, which `ClientApp.RunSpec` turns into the outcome `Exited`. The
      vectors a failure leaves (`prior` when the count is missing or zero,
      the vectors read so far otherwise) are what the process held when it
      ended; nothing reads them afterwards. */
  function ReadVectors(content: Option<string>, count: Parser<nat>, value: Parser<Float64>,
                       prior: seq<seq<Float64>>): (bool, seq<seq<Float64>>)
  {
    if content.None? then (false, prior)
    else
      var words := Words(content.value);
      if words == [] || !DeclaresSize(words[0], count) then (false, prior)
      else ReadFrom(words, 1, count(words[0]).value, count, value, [])
  }

  /** The inner loop of `readVectorsFromFile`: `size` values read from word
      `pos` on, or `None` when a word is missing or does not read. */
  method ReadValues(words: seq<string>, pos: nat, size: nat, value: Parser<Float64>) returns (r: Option<seq<Float64>>)
    requires pos <= |words|
    ensures r.Some? <==> ValuesReadable(words, pos, size, value)
    ensures r.Some? ==> r.value == ValuesAt(words, pos, size, value)
  {
    var vec: seq<Float64> := [];
    var j := 0;
    while j < size
      invariant 0 <= j <= size && |vec| == j
      invariant ValuesReadable(words, pos, j, value)
      invariant vec == ValuesAt(words, pos, j, value)
    {
      if pos + j >= |words| || value(words[pos + j]).None? {
        return None;
      }
      vec := vec + [value(words[pos + j]).value];
      j := j + 1;
    }
    return Some(vec);
  }

  /** What `validateData` accepts: at least one vector and no empty one. */
  predicate Valid(vs: seq<seq<Float64>>)
  {
    vs != [] && forall i :: 0 <= i < |vs| ==> vs[i] != []
  }

  /** The words of a vector set in the file layout: the count, then for every
      vector its size and its values. `showCount` and `showValue` print a
      number the way the parsers read it back. */
  function Layout(vs: seq<seq<Float64>>, showCount: nat -> string, showValue: Float64 -> string): seq<string>
  {
    [showCount(|vs|)] + VectorWords(vs, showCount, showValue)
  }

  function VectorWords(vs: seq<seq<Float64>>, showCount: nat -> string, showValue: Float64 -> string): seq<string>
  {
    if vs == [] then []
    else
      [showCount(|vs[0]|)] + seq(|vs[0]|, j requires 0 <= j < |vs[0]| => showValue(vs[0][j]))
      + VectorWords(vs[1..], showCount, showValue)
  }

  /** The printers and the parsers agree. */
  ghost predicate Inverse(count: Parser<nat>, value: Parser<Float64>, showCount: nat -> string, showValue: Float64 -> string)
  {
    (forall n: nat :: count(showCount(n)) == Some(n)) && (forall x: Float64 :: value(showValue(x)) == Some(x))
  }

  /** Reading succeeds only with as many vectors as declared, none of them
      empty, and each as long as its declared size. */
  lemma {:induction false} ReadFromShape(words: seq<string>, pos: nat, n: nat, count: Parser<nat>,
                                         value: Parser<Float64>, acc: seq<seq<Float64>>)
    ensures var r := ReadFrom(words, pos, n, count, value, acc);
      && |acc| <= |r.1| && r.1[..|acc|] == acc
      && (r.0 ==> |r.1| == |acc| + n)
      && (!r.0 ==> |r.1| < |acc| + n)
      && ((forall i :: 0 <= i < |acc| ==> acc[i] != []) ==> forall i :: 0 <= i < |r.1| ==> r.1[i] != [])
    decreases n
  {
    if n > 0 && pos < |words| && DeclaresSize(words[pos], count) {
      var size := count(words[pos]).value;
      if ValuesReadable(words, pos + 1, size, value) {
        var acc' := acc + [ValuesAt(words, pos + 1, size, value)];
        ReadFromShape(words, pos + 1 + size, n - 1, count, value, acc');
        var r := ReadFrom(words, pos + 1 + size, n - 1, count, value, acc');
        assert r.1[..|acc|] == r.1[..|acc'|][..|acc|];
      }
    }
  }

  /** A successful read leaves exactly the declared number of vectors, and a
      set `validateData` accepts: zero counts and sizes were refused. */
  lemma ReadIsValid(content: Option<string>, count: Parser<nat>, value: Parser<Float64>, prior: seq<seq<Float64>>)
    ensures var r := ReadVectors(content, count, value, prior);
      r.0 ==> && content.Some? && Words(content.value) != []
              && count(Words(content.value)[0]).Some?
              && |r.1| == count(Words(content.value)[0]).value
              && Valid(r.1)
  {
    var r := ReadVectors(content, count, value, prior);
    if r.0 {
      var words := Words(content.value);
      ReadFromShape(words, 1, count(words[0]).value, count, value, []);
    }
  }

  /** A file that does not open, has no count or declares 0 vectors fails
      (ending the process) before `vectors` is cleared. */
  lemma ReadRejectsCount(content: Option<string>, count: Parser<nat>, value: Parser<Float64>, prior: seq<seq<Float64>>)
    requires content.None? || Words(content.value) == [] || count(Words(content.value)[0]).None?
      || count(Words(content.value)[0]) == Some(0)
    ensures ReadVectors(content, count, value, prior) == (false, prior)
  {
  }

  /** Reading the words of a set back gives the set: the vectors, in order,
      every one with its values in order, and nothing more. */
  lemma {:induction false} ReadFromLayout(vs: seq<seq<Float64>>, rest: seq<string>, pos: nat,
                                          count: Parser<nat>, value: Parser<Float64>,
                                          showCount: nat -> string, showValue: Float64 -> string,
                                          before: seq<string>, acc: seq<seq<Float64>>)
    requires Inverse(count, value, showCount, showValue)
    requires forall i :: 0 <= i < |vs| ==> vs[i] != []
    requires |before| == pos
    ensures ReadFrom(before + VectorWords(vs, showCount, showValue) + rest, pos, |vs|, count, value, acc)
      == (true, acc + vs)
    decreases |vs|
  {
    var words := before + VectorWords(vs, showCount, showValue) + rest;
    Between(before, VectorWords(vs, showCount, showValue), rest);
    LayoutLaidOut(words, |before|, vs, showCount, showValue);
    ReadFromLaidOut(before + VectorWords(vs, showCount, showValue) + rest, pos, vs, count, value,
                    showCount, showValue, acc);
  }

  /** Word `pos` of `words` is the size of `v`, and its values follow. */
  ghost predicate HeadAt(words: seq<string>, pos: nat, v: seq<Float64>,
                         showCount: nat -> string, showValue: Float64 -> string)
  {
    && pos + 1 + |v| <= |words|
    && words[pos] == showCount(|v|)
    && forall j :: 0 <= j < |v| ==> words[pos + 1 + j] == showValue(v[j])
  }

  /** From word `pos` on, `words` holds the size and the values of every
      vector of `vs` in turn. */
  ghost predicate LaidOutAt(words: seq<string>, pos: nat, vs: seq<seq<Float64>>,
                            showCount: nat -> string, showValue: Float64 -> string)
    decreases |vs|
  {
    vs == [] ||
    (&& HeadAt(words, pos, vs[0], showCount, showValue)
     && LaidOutAt(words, pos + 1 + |vs[0]|, vs[1..], showCount, showValue))
  }

  /** The loop reads laid-out vectors back. */
  lemma {:induction false} ReadFromLaidOut(words: seq<string>, pos: nat, vs: seq<seq<Float64>>,
                                           count: Parser<nat>, value: Parser<Float64>,
                                           showCount: nat -> string, showValue: Float64 -> string,
                                           acc: seq<seq<Float64>>)
    requires Inverse(count, value, showCount, showValue)
    requires forall i :: 0 <= i < |vs| ==> vs[i] != []
    requires LaidOutAt(words, pos, vs, showCount, showValue)
    ensures ReadFrom(words, pos, |vs|, count, value, acc) == (true, acc + vs)
    decreases |vs|
  {
    if vs == [] {
      assert acc + vs == acc;
    } else {
      var v := vs[0];
      assert count(words[pos]) == Some(|v|);
      assert forall j :: 0 <= j < |v| ==> value(words[pos + 1 + j]) == Some(v[j]);
      ReadFromStep(words, pos, |vs|, count, value, acc, v);
      ReadFromLaidOut(words, pos + 1 + |v|, vs[1..], count, value, showCount, showValue, acc + [v]);
      ConsTail(acc, vs);
    }
  }

  lemma ConsTail(acc: seq<seq<Float64>>, vs: seq<seq<Float64>>)
    requires vs != []
    ensures (acc + [vs[0]]) + vs[1..] == acc + vs
  {
    assert [vs[0]] + vs[1..] == vs;
  }

  /** Words that sit between `before` and `rest` start at `|before|`. */
  lemma Between(before: seq<string>, mid: seq<string>, rest: seq<string>)
    ensures mid <= (before + mid + rest)[|before|..]
  {
    assert (before + mid + rest)[|before|..] == mid + rest;
  }

  /** Wherever the printed words of a set appear, the set is laid out there. */
  lemma {:induction false} LayoutLaidOut(words: seq<string>, pos: nat, vs: seq<seq<Float64>>,
                                         showCount: nat -> string, showValue: Float64 -> string)
    requires pos <= |words| && VectorWords(vs, showCount, showValue) <= words[pos..]
    ensures LaidOutAt(words, pos, vs, showCount, showValue)
    decreases |vs|
  {
    if vs != [] {
      var pos' := LayoutHead(words, pos, vs, showCount, showValue);
      LayoutLaidOut(words, pos', vs[1..], showCount, showValue);
    }
  }

  /** The words of the first vector come first: its size, then its values;
      the words of the others follow them. */
  lemma LayoutHead(words: seq<string>, pos: nat, vs: seq<seq<Float64>>,
                   showCount: nat -> string, showValue: Float64 -> string) returns (pos': nat)
    requires vs != []
    requires pos <= |words| && VectorWords(vs, showCount, showValue) <= words[pos..]
    ensures pos' == pos + 1 + |vs[0]| <= |words|
    ensures VectorWords(vs[1..], showCount, showValue) <= words[pos'..]
    ensures HeadAt(words, pos, vs[0], showCount, showValue)
  {
    var v := vs[0];
    var vals := seq(|v|, j requires 0 <= j < |v| => showValue(v[j]));
    var head := [showCount(|v|)] + vals;
    var tail := VectorWords(vs[1..], showCount, showValue);
    assert VectorWords(vs, showCount, showValue) == head + tail;
    pos' := pos + |head|;
    PrefixSplit(words[pos..], head, tail);
    assert words[pos..][|head|..] == words[pos'..];
    forall j | 0 <= j < |v|
      ensures words[pos + 1 + j] == showValue(v[j])
    {
      assert words[pos + 1 + j] == words[pos..][1 + j] == head[1 + j];
    }
  }

  /** A prefix made of two parts: the first starts the sequence, the second
      starts what follows it. */
  lemma PrefixSplit(w: seq<string>, head: seq<string>, tail: seq<string>)
    requires head + tail <= w
    ensures head <= w && tail <= w[|head|..]
  {
    assert w[..|head|] == (head + tail)[..|head|] == head;
    assert w[|head|..][..|tail|] == (head + tail)[|head|..] == tail;
  }


  /** One pass of the loop over a size word and as many value words. */
  lemma ReadFromStep(words: seq<string>, pos: nat, n: nat, count: Parser<nat>, value: Parser<Float64>,
                     acc: seq<seq<Float64>>, v: seq<Float64>)
    requires n > 0 && v != [] && pos + 1 + |v| <= |words|
    requires count(words[pos]) == Some(|v|)
    requires forall j :: 0 <= j < |v| ==> value(words[pos + 1 + j]) == Some(v[j])
    ensures ReadFrom(words, pos, n, count, value, acc)
         == ReadFrom(words, pos + 1 + |v|, n - 1, count, value, acc + [v])
  {
    assert ValuesReadable(words, pos + 1, |v|, value) by {
      forall j | pos + 1 <= j < pos + 1 + |v|
        ensures value(words[j]).Some?
      {
        assert value(words[pos + 1 + (j - pos - 1)]) == Some(v[j - pos - 1]);
      }
    }
    assert ValuesAt(words, pos + 1, |v|, value) == v;
  }

  /** A file holding exactly the words of a valid set reads back as that set. */
  lemma ReadLayout(vs: seq<seq<Float64>>, content: string, count: Parser<nat>, value: Parser<Float64>,
                   showCount: nat -> string, showValue: Float64 -> string, prior: seq<seq<Float64>>)
    requires Inverse(count, value, showCount, showValue) && Valid(vs)
    requires Words(content) == Layout(vs, showCount, showValue)
    ensures ReadVectors(Some(content), count, value, prior) == (true, vs)
  {
    var words := Layout(vs, showCount, showValue);
    assert count(words[0]) == Some(|vs|);
    assert words == [showCount(|vs|)] + VectorWords(vs, showCount, showValue) + [];
    ReadFromLayout(vs, [], 1, count, value, showCount, showValue, [showCount(|vs|)], []);
    assert [] + vs == vs;
  }

  lemma ImagesStep(v: seq<Float64>, j: nat)
    requires j < |v|
    ensures Images(v[..j + 1]) == Images(v[..j]) + v[j]
  {
    assert v[..j + 1][..j] == v[..j];
  }

  lemma FramesStep(vs: seq<seq<Float64>>, i: nat)
    requires i < |vs|
    ensures Frames(vs[..i + 1]) == Frames(vs[..i]) + Frame(vs[i])
  {
    assert vs[..i + 1][..i] == vs[..i];
  }

  /** Appending the frame of vector `i` extends the bytes of the first `i`. */
  lemma EncodeStep(vs: seq<seq<Float64>>, i: nat, count: seq<char>, start: seq<char>, data: seq<char>)
    requires i < |vs| && start == count + Frames(vs[..i])
    requires data == start + EncodeU32(ToU32(|vs[i]|)) + Images(vs[i])
    ensures data == count + Frames(vs[..i + 1])
  {
    FramesStep(vs, i);
    Associative(start, EncodeU32(ToU32(|vs[i]|)), Images(vs[i]));
    Associative(count, Frames(vs[..i]), Frame(vs[i]));
  }

  class DataProcessor {
    var vectors: seq<seq<Float64>>

    constructor()
      ensures vectors == []
    {
      vectors := [];
    }

    /** `getVectors`. */
    function GetVectors(): seq<seq<Float64>>
      reads this
    {
      vectors
    }

    /** `getVectorsCount`: the number of vectors `getVectors` shows. */
    function GetVectorsCount(): (n: nat)
      reads this
      ensures n == |GetVectors()|
    {
      |vectors|
    }

    /** `readVectorsFromFile`: the count, then every vector's size and values,
        with the nested loops of the source. */
    method ReadVectorsFromFile(content: Option<string>, count: Parser<nat>, value: Parser<Float64>) returns (ok: bool)
      modifies this
      ensures (ok, vectors) == ReadVectors(content, count, value, old(vectors))
    {
      if content.None? {
        return false;
      }
      var words := Words(content.value);
      if words == [] || !DeclaresSize(words[0], count) {
        return false;
      }
      var numVectors := count(words[0]).value;
      ghost var all := ReadFrom(words, 1, numVectors, count, value, []);
      vectors := [];
      var pos := 1;
      var i := 0;
      while i < numVectors
        invariant 0 <= i <= numVectors && 1 <= pos
        invariant ReadFrom(words, pos, numVectors - i, count, value, vectors) == all
        decreases numVectors - i
      {
        if pos >= |words| || !DeclaresSize(words[pos], count) {
          return false;
        }
        var vectorSize := count(words[pos]).value;
        pos := pos + 1;
        var vec := ReadValues(words, pos, vectorSize, value);
        if vec.None? {
          return false;
        }
        vectors := vectors + [vec.value];
        pos := pos + vectorSize;
        i := i + 1;
      }
      return true;
    }

    /** `validateData`. */
    method ValidateData() returns (ok: bool)
      ensures ok <==> Valid(vectors)
    {
      if vectors == [] {
        return false;
      }
      var i := 0;
      while i < |vectors|
        invariant 0 <= i <= |vectors|
        invariant forall k :: 0 <= k < i ==> vectors[k] != []
      {
        if vectors[i] == [] {
          return false;
        }
        i := i + 1;
      }
      return true;
    }

    /** `convertToBinary`: the count, then every vector's size and value
        images, appended in loops. */
    method ConvertToBinary() returns (data: seq<char>)
      ensures data == Encode(vectors)
    {
      var vs := vectors;
      var count := EncodeU32(ToU32(|vs|));
      data := count;
      var i := 0;
      while i < |vs|
        invariant 0 <= i <= |vs|
        invariant data == count + Frames(vs[..i])
      {
        var vec := vs[i];
        ghost var start := data;
        data := AppendImages(data + EncodeU32(ToU32(|vec|)), vec);
        EncodeStep(vs, i, count, start, data);
        i := i + 1;
      }
      assert vs[..i] == vs;
    }
  }

  /** The inner loop of `convertToBinary`: the 8 octets of each value of
      `vec`, in order, after `data`. */
  method AppendImages(data: seq<char>, vec: seq<Float64>) returns (out: seq<char>)
    ensures out == data + Images(vec)
  {
    out := data;
    var j := 0;
    while j < |vec|
      invariant 0 <= j <= |vec|
      invariant out == data + Images(vec[..j])
    {
      ImagesStep(vec, j);
      Associative(data, Images(vec[..j]), vec[j]);
      out := out + vec[j];
      j := j + 1;
    }
    assert vec[..j] == vec;
  }
}
