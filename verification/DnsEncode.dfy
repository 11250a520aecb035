/** Writing domain names (section 3.1 of RFC 1035), and exactly which names
    survive being written and read back. */
module DnsEncode {
  import opened Wrappers
  import opened DnsName

  /** strings.Split on the dot: never empty. */
  function Split(name: Bytes): (r: seq<Bytes>)
    ensures |r| >= 1
  {
    if name == [] then [[]]
    else
      var t := Split(name[1..]);
      if name[0] == DOT then [[]] + t else [[name[0]] + t[0]] + t[1..]
  }

  function Trim(name: Bytes): Bytes {
    if name != [] && name[|name| - 1] == DOT then name[..|name| - 1] else name
  }

  function Cut(word: Bytes): (r: Bytes)
    ensures |r| <= MAX_LABEL
  {
    if |word| > MAX_LABEL then word[..MAX_LABEL] else word
  }

  function CutAll(words: seq<Bytes>): seq<Bytes> {
    if words == [] then [] else [Cut(words[0])] + CutAll(words[1..])
  }

  ghost predicate Short(words: seq<Bytes>) {
    forall i :: 0 <= i < |words| ==> |words[i]| <= MAX_LABEL
  }

  lemma {:induction false} CutAllShort(words: seq<Bytes>)
    ensures Short(CutAll(words)) && |CutAll(words)| == |words|
    ensures forall i :: 0 <= i < |words| ==> CutAll(words)[i] == Cut(words[i])
  {
    if words != [] {
      CutAllShort(words[1..]);
    }
  }

  /** One label behind its length. */
  function Prefixed(word: Bytes): Bytes
    requires |word| <= MAX_LABEL
  {
    [|word| as byte] + word
  }

  /** Length-prefixed labels, then the root. */
  function Wire(words: seq<Bytes>): Bytes
    requires Short(words)
  {
    if words == [] then [0] else Prefixed(words[0]) + Wire(words[1..])
  }

  function Encoded(name: Bytes): Bytes {
    CutAllShort(Split(Trim(name)));
    Wire(CutAll(Split(Trim(name))))
  }

  /** One dot at the end says nothing: the name is written the same. */
  lemma DotAtEnd(name: Bytes)
    requires name != [] ==> name[|name| - 1] != DOT
    ensures Encoded(name + [DOT]) == Encoded(name)
  {
    assert (name + [DOT])[..|name|] == name;
  }

  /** The bytes of some labels without the root. */
  function Stem(words: seq<Bytes>): Bytes
    requires Short(words)
  {
    if words == [] then []
    else Stem(words[..|words| - 1]) + Prefixed(words[|words| - 1])
  }

  lemma {:induction false} StemFront(words: seq<Bytes>)
    requires Short(words) && words != []
    ensures Stem(words) == Prefixed(words[0]) + Stem(words[1..])
  {
    var n := |words| - 1;
    if n == 0 {
      assert words[..0] == [] && words[1..] == [];
    } else {
      var head, mid, last := Prefixed(words[0]), Stem(words[1..n]), Prefixed(words[n]);
      StemFront(words[..n]);
      assert words[..n][1..] == words[1..n] && words[1..][..n - 1] == words[1..n];
      Associate(head, mid, last);
    }
  }

  lemma Associate(a: Bytes, b: Bytes, c: Bytes)
    ensures (a + b) + c == a + (b + c)
  {}

  lemma {:induction false} WireIsStem(words: seq<Bytes>)
    requires Short(words)
    ensures Wire(words) == Stem(words) + [0]
  {
    if words != [] {
      StemFront(words);
      WireIsStem(words[1..]);
      Associate(Prefixed(words[0]), Stem(words[1..]), [0]);
    }
  }

  method EncodeName(name: Bytes) returns (out: Bytes)
    ensures out == Encoded(name)
  {
    var words := Split(Trim(name));
    CutAllShort(words);
    ghost var cut := CutAll(words);
    out := [];
    for i := 0 to |words|
      invariant out == Stem(cut[..i])
    {
      var p := words[i];
      if |p| > MAX_LABEL {
        p := p[..MAX_LABEL];
      }
      Associate(out, [|p| as byte], p);
      out := out + [|p| as byte];
      out := out + p;
      assert cut[..i + 1][..i] == cut[..i] && p == cut[i];
    }
    assert cut[..|words|] == cut;
    WireIsStem(cut);
    out := out + [0];
  }

  // -------------------------------------------------------------- join / split

  lemma {:induction false} JoinFront(words: seq<Bytes>, c: byte)
    requires words != []
    ensures Join([[c] + words[0]] + words[1..]) == [c] + Join(words)
  {
    var w := [[c] + words[0]] + words[1..];
    assert w[1..] == words[1..];
  }

  lemma {:induction false} JoinSplit(name: Bytes)
    ensures Join(Split(name)) == name
  {
    if name != [] {
      var t := Split(name[1..]);
      JoinSplit(name[1..]);
      if name[0] == DOT {
        assert ([[]] + t)[1..] == t;
        assert name == [DOT] + name[1..];
      } else {
        JoinFront(t, name[0]);
        assert name == [name[0]] + name[1..];
      }
    }
  }

  function Length(words: seq<Bytes>): nat {
    if words == [] then 0 else |words[0]| + 1 + Length(words[1..])
  }

  lemma {:induction false} JoinLength(words: seq<Bytes>)
    requires words != []
    ensures |Join(words)| == Length(words) - 1
  {
    if |words| > 1 {
      JoinLength(words[1..]);
    } else {
      assert Length(words[1..]) == 0;
    }
  }

  lemma {:induction false} WireLength(words: seq<Bytes>)
    requires Short(words)
    ensures |Wire(words)| == Length(words) + 1
  {
    if words != [] {
      WireLength(words[1..]);
    }
  }

  lemma {:induction false} CutLength(words: seq<Bytes>)
    ensures Length(CutAll(words)) <= Length(words)
    ensures Length(CutAll(words)) == Length(words) <==> Short(words)
    ensures Short(words) ==> CutAll(words) == words
  {
    if words != [] {
      CutLength(words[1..]);
      assert Short(words) <==> |words[0]| <= MAX_LABEL && Short(words[1..]);
    }
  }

  // ------------------------------------------------------------------ read back

  /** Index of the first empty label, which reads as the root. */
  function FirstEmpty(words: seq<Bytes>): (j: nat)
    ensures j <= |words|
    ensures j < |words| ==> |words[j]| == 0
    ensures forall i :: 0 <= i < j ==> |words[i]| > 0
  {
    if words == [] || |words[0]| == 0 then 0 else 1 + FirstEmpty(words[1..])
  }

  ghost predicate LiesAt(msg: Bytes, off: nat, part: Bytes) {
    off + |part| <= |msg| && msg[off..off + |part|] == part
  }

  lemma LiesAtSplit(msg: Bytes, off: nat, a: Bytes, b: Bytes)
    requires LiesAt(msg, off, a + b)
    ensures LiesAt(msg, off, a) && LiesAt(msg, off + |a|, b)
  {
    var all := msg[off..off + |a| + |b|];
    assert all[..|a|] == a && all[|a|..] == b;
    assert msg[off..off + |a|] == all[..|a|];
    assert msg[off + |a|..off + |a| + |b|] == all[|a|..];
  }

  lemma PrefixedMove(msg: Bytes, off: nat, word: Bytes)
    requires |word| <= MAX_LABEL && LiesAt(msg, off, Prefixed(word))
    ensures MoveAt(msg, off) == if word == [] then Root else Label(word, off + 1 + |word|)
  {
    LiesAtSplit(msg, off, [|word| as byte], word);
    assert msg[off..off + 1][0] == msg[off];
  }

  lemma FirstMove(msg: Bytes, off: nat, words: seq<Bytes>)
    requires Short(words) && LiesAt(msg, off, Wire(words))
    ensures words == [] || |words[0]| == 0 ==> MoveAt(msg, off) == Root
    ensures words != [] && |words[0]| > 0 ==>
              && MoveAt(msg, off) == Label(words[0], off + 1 + |words[0]|)
              && LiesAt(msg, off + 1 + |words[0]|, Wire(words[1..]))
  {
    if words == [] {
      assert msg[off..off + 1][0] == 0;
    } else {
      LiesAtSplit(msg, off, Prefixed(words[0]), Wire(words[1..]));
      PrefixedMove(msg, off, words[0]);
    }
  }

  lemma TakeOneMore(words: seq<Bytes>, j: nat)
    requires j < |words|
    ensures words[..j + 1] == [words[0]] + words[1..][..j]
    ensures Length(words[..j + 1]) == 1 + |words[0]| + Length(words[1..][..j])
  {
    var front := words[..j + 1];
    assert front[0] == words[0] && front[1..] == words[1..][..j];
  }

  lemma FirstEmptyStep(words: seq<Bytes>)
    requires words != [] && |words[0]| > 0
    ensures var j := FirstEmpty(words[1..]);
            && FirstEmpty(words) == j + 1
            && words[..j + 1] == [words[0]] + words[1..][..j]
            && Length(words[..j + 1]) == 1 + |words[0]| + Length(words[1..][..j])
  {
    TakeOneMore(words, FirstEmpty(words[1..]));
  }

  /** What reading some written labels at `off` gives: it stops at the first
      empty one. */
  ghost predicate ReadsUpToEmpty(msg: Bytes, off: nat, words: seq<Bytes>, fuel: nat) {
    var j := FirstEmpty(words);
    && Labels(msg, off, fuel) == (if j < fuel then Some(words[..j]) else None)
    && (j < fuel ==> End(msg, off, fuel) == off + Length(words[..j]) + 1)
  }

  lemma ReadWireStep(msg: Bytes, off: nat, words: seq<Bytes>, next: nat, fuel: nat)
    requires words != [] && |words[0]| > 0 && next == off + 1 + |words[0]|
    requires MoveAt(msg, off) == Label(words[0], next)
    requires ReadsUpToEmpty(msg, next, words[1..], fuel)
    ensures ReadsUpToEmpty(msg, off, words, fuel + 1)
  {
    FirstEmptyStep(words);
  }

  lemma ReadWireStop(msg: Bytes, off: nat, words: seq<Bytes>, fuel: nat)
    requires fuel == 0 || ((words == [] || |words[0]| == 0) && MoveAt(msg, off) == Root)
    ensures ReadsUpToEmpty(msg, off, words, fuel)
  {
    assert words[..0] == [];
  }

  lemma {:induction false} ReadWire(msg: Bytes, off: nat, words: seq<Bytes>, fuel: nat)
    requires Short(words) && LiesAt(msg, off, Wire(words))
    ensures ReadsUpToEmpty(msg, off, words, fuel)
    decreases |words|
  {
    FirstMove(msg, off, words);
    if fuel == 0 || words == [] || |words[0]| == 0 {
      ReadWireStop(msg, off, words, fuel);
    } else {
      var next := off + 1 + |words[0]|;
      ReadWire(msg, next, words[1..], fuel - 1);
      ReadWireStep(msg, off, words, next, fuel - 1);
    }
  }

  /** Names that survive: fewer labels than moves allowed (64 of them in
      readName), each of 1 to 63 bytes. */
  predicate WellFormed(name: Bytes, steps: nat) {
    && |Split(name)| < steps
    && forall i :: 0 <= i < |Split(name)| ==> 1 <= |Split(name)[i]| <= MAX_LABEL
  }

  ghost predicate Fixes(lower: Lowering, words: seq<Bytes>) {
    forall i :: 0 <= i < |words| ==> lower(words[i]) == words[i]
  }

  lemma {:induction false} LengthPrefix(words: seq<Bytes>, j: nat)
    requires j <= |words|
    ensures Length(words) == Length(words[..j]) + Length(words[j..])
    decreases j
  {
    if j > 0 {
      LengthPrefix(words[1..], j - 1);
      assert words[..j][1..] == words[1..][..j - 1];
      assert words[1..][j - 1..] == words[j..];
    } else {
      assert words[..0] == [] && words[0..] == words;
    }
  }

  lemma {:induction false} TrailingDot(name: Bytes)
    requires name != [] && name[|name| - 1] == DOT
    ensures |Split(name)| >= 2 && |Split(name)[|Split(name)| - 1]| == 0
  {
    var t := Split(name[1..]);
    if |name| == 1 {
      assert t == [[]] && Split(name) == [[]] + t;
    } else {
      TrailingDot(name[1..]);
      assert Split(name) == if name[0] == DOT then [[]] + t else [[name[0]] + t[0]] + t[1..];
    }
  }

  /** What reading back a name written at `off` gives. */
  function Returned(name: Bytes, off: nat, steps: nat): Option<Name> {
    var cut := CutAll(Split(Trim(name)));
    var j := FirstEmpty(cut);
    if j < steps then Some(Name(Join(cut[..j]), off + Length(cut[..j]) + 1)) else None
  }

  lemma ReadsAs(msg: Bytes, off: nat, name: Bytes, lower: Lowering, steps: nat)
    requires LiesAt(msg, off, Encoded(name)) && Fixes(lower, CutAll(Split(Trim(name))))
    ensures Read(msg, off, lower, steps) == Returned(name, off, steps)
  {
    var cut := CutAll(Split(Trim(name)));
    CutAllShort(Split(Trim(name)));
    ReadWire(msg, off, cut, steps);
    assert LowerAll(cut[..FirstEmpty(cut)], lower) == cut[..FirstEmpty(cut)];
  }

  /** Whether the text and the length that come back are the ones written. */
  ghost predicate Survives(name: Bytes, steps: nat) {
    var cut := CutAll(Split(Trim(name)));
    var j := FirstEmpty(cut);
    j < steps && Join(cut[..j]) == name && Length(cut[..j]) == Length(cut)
  }

  lemma EmptyStopsEarly(words: seq<Bytes>, j: nat)
    requires j <= |words|
    ensures Length(words[..j]) == Length(words) <==> j == |words|
  {
    LengthPrefix(words, j);
    assert j == |words| ==> words[..j] == words;
  }

  lemma TrailingDotDies(name: Bytes, steps: nat)
    requires name != [] && name[|name| - 1] == DOT
    ensures !Survives(name, steps) && !WellFormed(name, steps)
  {
    var words := Split(Trim(name));
    var cut := CutAll(words);
    var j := FirstEmpty(cut);
    TrailingDot(name);
    CutAllShort(words);
    EmptyStopsEarly(cut, j);
    if j == |cut| {
      assert cut[..j] == cut;
      JoinSplit(Trim(name));
      JoinLength(words);
      JoinLength(cut);
      CutLength(words);
    }
  }

  lemma UndottedSurvivesIff(name: Bytes, steps: nat)
    requires name == [] || name[|name| - 1] != DOT
    ensures Survives(name, steps) <==> WellFormed(name, steps)
  {
    var words := Split(name);
    var cut := CutAll(words);
    var j := FirstEmpty(cut);
    CutAllShort(words);
    EmptyStopsEarly(cut, j);
    if j < |cut| {
      assert |words[j]| == 0;
    } else {
      assert cut[..j] == cut;
      JoinSplit(name);
      JoinLength(words);
      JoinLength(cut);
      CutLength(words);
      forall i | 0 <= i < |words| ensures |words[i]| >= 1 { assert |cut[i]| > 0; }
    }
  }

  lemma ReturnedIff(name: Bytes, off: nat, steps: nat)
    ensures Returned(name, off, steps) == Some(Name(name, off + |Encoded(name)|)) <==> Survives(name, steps)
  {
    CutAllShort(Split(Trim(name)));
    WireLength(CutAll(Split(Trim(name))));
  }

  /** A lower-case name written anywhere in a message reads back as itself,
      with the offset just past what was written, exactly when it is well
      formed: no empty label (so no trailing dot), none over 63 bytes, and
      fewer of them than moves allowed. */
  lemma RoundTripIff(msg: Bytes, off: nat, name: Bytes, lower: Lowering, steps: nat)
    requires LiesAt(msg, off, Encoded(name)) && Fixes(lower, CutAll(Split(Trim(name))))
    ensures Read(msg, off, lower, steps) == Some(Name(name, off + |Encoded(name)|)) <==> WellFormed(name, steps)
  {
    ReadsAs(msg, off, name, lower, steps);
    ReturnedIff(name, off, steps);
    if name != [] && name[|name| - 1] == DOT {
      TrailingDotDies(name, steps);
    } else {
      UndottedSurvivesIff(name, steps);
    }
  }
}
