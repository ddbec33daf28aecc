/** Byte memory holding big-endian 32-bit words, and the small option type the models use. */
module Memory {
  import opened Words
  import opened Powers

  datatype Option<+T> = None | Some(value: T) {
    predicate IsFailure() { None? }
    function PropagateFailure<U>(): Option<U>
      requires None?
    {
      None
    }
    function Extract(): T
      requires Some?
    {
      value
    }
  }

  /** int.from_bytes(mem[a:a+4], "big") */
  function WordAt(mem: seq<byte>, a: int): (w: word)
    requires 0 <= a && a + 4 <= |mem|
  {
    (mem[a] as int) * 0x100_0000 + (mem[a + 1] as int) * 0x1_0000 + (mem[a + 2] as int) * 0x100 + mem[a + 3]
  }

  /** w.to_bytes(4, "big") */
  function WordBytes(w: word): (b: seq<byte>)
    ensures |b| == 4
  {
    [LowByte(w / 0x100_0000), LowByte(w / 0x1_0000), LowByte(w / 0x100), LowByte(w)]
  }

  /** mem with the bytes b written at a. */
  function Splice(mem: seq<byte>, a: int, b: seq<byte>): (m: seq<byte>)
    requires 0 <= a && a + |b| <= |mem|
    ensures |m| == |mem|
    ensures forall i :: 0 <= i < |mem| ==> m[i] == if a <= i < a + |b| then b[i - a] else mem[i]
  {
    mem[..a] + b + mem[a + |b|..]
  }

  function Store(mem: seq<byte>, a: int, w: word): (m: seq<byte>)
    requires 0 <= a && a + 4 <= |mem|
    ensures |m| == |mem|
  {
    Splice(mem, a, WordBytes(w))
  }

  lemma WordOfBytes(w: word)
    ensures WordAt(WordBytes(w), 0) == w
  {
    var h, t := w / 0x1_0000, w / 0x100;
    assert w == 0x100 * t + LowByte(w);
    assert t == 0x100 * h + LowByte(t);
    assert h == 0x100 * (w / 0x100_0000) + LowByte(h);
  }

  lemma BytesOfWord(b: seq<byte>)
    requires |b| == 4
    ensures WordBytes(WordAt(b, 0)) == b
  {
    DivMod(b[0], (b[1] as int) * 0x1_0000 + (b[2] as int) * 0x100 + b[3], 0x100_0000);
    DivMod((b[0] as int) * 0x100 + b[1], (b[2] as int) * 0x100 + b[3], 0x1_0000);
    DivMod((b[0] as int) * 0x1_0000 + (b[1] as int) * 0x100 + b[2], b[3], 0x100);
    var r := WordBytes(WordAt(b, 0));
    assert r[0] == b[0] && r[1] == b[1] && r[2] == b[2] && r[3] == b[3];
  }

  /** A stored word reads back, and no byte outside it changes. */
  lemma StoreLoad(mem: seq<byte>, a: int, w: word)
    requires 0 <= a && a + 4 <= |mem|
    ensures WordAt(Store(mem, a, w), a) == w
    ensures forall i :: 0 <= i < |mem| && !(a <= i < a + 4) ==> Store(mem, a, w)[i] == mem[i]
  {
    WordOfBytes(w);
  }

  lemma StoreElsewhere(mem: seq<byte>, a: int, w: word, b: int)
    requires 0 <= a && a + 4 <= |mem| && 0 <= b && b + 4 <= |mem|
    requires b + 4 <= a || a + 4 <= b
    ensures WordAt(Store(mem, a, w), b) == WordAt(mem, b)
  {
  }

  /** The last store to an address wins. */
  lemma StoreTwice(mem: seq<byte>, a: int, v: word, w: word)
    requires 0 <= a && a + 4 <= |mem|
    ensures Store(Store(mem, a, v), a, w) == Store(mem, a, w)
  {
  }
}
