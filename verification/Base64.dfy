/**
 base64.RawURLEncoding: the URL-safe alphabet of section 5 of RFC 4648 without
 the "=" padding of section 3.2. The decoder is Go's: it skips CR and LF
 wherever they occur and ignores left-over bits of the last character.
 */
module Base64 {
  import opened Strings

  datatype Option<+T> = None | Some(value: T)

  function Symbol(v: nat): (c: Byte)
    requires v < 64
    ensures Value(c) == v
  {
    if v < 26 then (v + 65) as char
    else if v < 52 then (v + 71) as char
    else if v < 62 then (v - 4) as char
    else if v == 62 then '-' else '_'
  }

  /** The six bits a symbol stands for, or -1. */
  function Value(c: Byte): (v: int)
    ensures -1 <= v < 64
  {
    if 'A' <= c <= 'Z' then c as int - 65
    else if 'a' <= c <= 'z' then c as int - 71
    else if '0' <= c <= '9' then c as int + 4
    else if c == '-' then 62 else if c == '_' then 63 else -1
  }

  /** Three bytes as four symbols. */
  function Quad(x: Byte, y: Byte, z: Byte): (s: Text)
    ensures |s| == 4 && forall i | 0 <= i < 4 :: Value(s[i]) >= 0
  {
    var (a, b, c) := (x as int, y as int, z as int);
    [Symbol(a / 4), Symbol(a % 4 * 16 + b / 16), Symbol(b % 16 * 4 + c / 64), Symbol(c % 64)]
  }

  /** Four symbols as three bytes. */
  function Triple(s: Text): (b: Text)
    requires |s| == 4 && forall i | 0 <= i < 4 :: Value(s[i]) >= 0
    ensures |b| == 3
  {
    [ (Value(s[0]) * 4 + Value(s[1]) / 16) as char,
      (Value(s[1]) % 16 * 16 + Value(s[2]) / 4) as char,
      (Value(s[2]) % 4 * 64 + Value(s[3])) as char ]
  }

  const NUL: Byte := 0 as char

  function Encode(b: Text): (s: Text)
    ensures forall c | c in s :: Value(c) >= 0
    ensures s == [] <==> b == []
  {
    if b == [] then []
    else if |b| == 1 then Quad(b[0], NUL, NUL)[..2]
    else if |b| == 2 then Quad(b[0], b[1], NUL)[..3]
    else Quad(b[0], b[1], b[2]) + Encode(b[3..])
  }

  function DropNewlines(s: Text): (r: Text)
  {
    if s == [] then []
    else if s[0] == '\r' || s[0] == '\n' then DropNewlines(s[1..])
    else [s[0]] + DropNewlines(s[1..])
  }

  function DecodeSymbols(s: Text): (r: Option<Text>)
  {
    if s == [] then Some([])
    else if |s| == 1 || exists i :: 0 <= i < 4 && i < |s| && Value(s[i]) < 0 then None
    else if |s| == 2 then Some(Triple(s + "AA")[..1])
    else if |s| == 3 then Some(Triple(s + "A")[..2])
    else
      match DecodeSymbols(s[4..])
      case None => None
      case Some(rest) => Some(Triple(s[..4]) + rest)
  }

  function Decode(s: Text): (r: Option<Text>) {
    DecodeSymbols(DropNewlines(s))
  }

  /** The URL-safe alphabet (table 2 of RFC 4648): capitals, small letters, digits, minus and underscore. */
  lemma AlphabetIs()
    ensures Symbol(0) == 'A' && Symbol(25) == 'Z' && Symbol(26) == 'a' && Symbol(51) == 'z' && Symbol(52) == '0' && Symbol(61) == '9'
    ensures forall v: nat | v < 61 && v != 25 && v != 51 :: Symbol(v + 1) as int == Symbol(v) as int + 1
    ensures Symbol(62) == '-' && Symbol(63) == '_'
  {
  }

  /** Outside the alphabet there are no symbols. */
  lemma ValueOutside(c: Byte)
    ensures Value(c) < 0 <==> forall v: nat | v < 64 :: Symbol(v) != c
  {
    if Value(c) >= 0 {
      assert Symbol(Value(c)) == c;
    }
  }

  /** The number a string of symbols writes in base 64. */
  function Base64Number(s: Text): (n: int) {
    if s == [] then 0 else 64 * Base64Number(s[..|s| - 1]) + Value(s[|s| - 1])
  }

  lemma Base64NumberMore(s: Text, c: Byte)
    ensures Base64Number(s + [c]) == 64 * Base64Number(s) + Value(c)
  {
    assert (s + [c])[..|s|] == s;
  }

  lemma Base64NumberOf(s: Text)
    ensures |s| == 2 ==> Base64Number(s) == 64 * Value(s[0]) + Value(s[1])
    ensures |s| == 3 ==> Base64Number(s) == 4096 * Value(s[0]) + 64 * Value(s[1]) + Value(s[2])
    ensures |s| == 4 ==> Base64Number(s) == 262144 * Value(s[0]) + 4096 * Value(s[1]) + 64 * Value(s[2]) + Value(s[3])
  {
    assert Base64Number([]) == 0;
    hide Base64Number, Value;
    if 2 <= |s| <= 4 {
      Base64NumberMore([], s[0]);
      Base64NumberMore([s[0]], s[1]);
      assert [] + [s[0]] == [s[0]] && s[..2] == [s[0]] + [s[1]];
      if |s| >= 3 {
        Base64NumberMore(s[..2], s[2]);
        assert s[..3] == s[..2] + [s[2]];
      }
      if |s| == 4 {
        Base64NumberMore(s[..3], s[3]);
        assert s == s[..3] + [s[3]];
      }
      assert |s| == 2 ==> s == s[..2];
      assert |s| == 3 ==> s == s[..3];
    }
  }

  /**
   What the encoding is: three bytes are four symbols for the same 24-bit number;
   one or two left over are two or three symbols for their bits followed by zeros.
   */
  lemma EncodeWritesBits(b: Text)
    ensures |b| >= 3 ==>
              var s := Encode(b);
              && |s| >= 4 && s[4..] == Encode(b[3..])
              && Base64Number(s[..4]) == 65536 * (b[0] as int) + 256 * (b[1] as int) + b[2] as int
    ensures |b| == 2 ==> |Encode(b)| == 3 && Base64Number(Encode(b)) == 4 * (256 * (b[0] as int) + b[1] as int)
    ensures |b| == 1 ==> |Encode(b)| == 2 && Base64Number(Encode(b)) == 16 * (b[0] as int)
  {
    if |b| >= 3 {
      var q := Quad(b[0], b[1], b[2]);
      assert Encode(b)[..4] == q;
      QuadWritesBits(b[0], b[1], b[2]);
    } else if |b| == 2 {
      QuadWritesBits(b[0], b[1], NUL);
      TailWritesBits(Quad(b[0], b[1], NUL), 3);
    } else if |b| == 1 {
      QuadWritesBits(b[0], NUL, NUL);
      TailWritesBits(Quad(b[0], NUL, NUL), 2);
    }
  }

  lemma QuadWritesBits(x: Byte, y: Byte, z: Byte)
    ensures Base64Number(Quad(x, y, z)) == 65536 * (x as int) + 256 * (y as int) + z as int
    ensures z == NUL ==> Value(Quad(x, y, z)[3]) == 0 && (y == NUL ==> Value(Quad(x, y, z)[2]) == 0)
  {
    hide Base64Number;
    Base64NumberOf(Quad(x, y, z));
  }

  lemma TailWritesBits(q: Text, n: nat)
    requires |q| == 4 && 2 <= n <= 3 && Value(q[3]) == 0 && (n == 2 ==> Value(q[2]) == 0)
    ensures Base64Number(q) == (if n == 3 then 64 else 4096) * Base64Number(q[..n])
  {
    hide Base64Number;
    Base64NumberOf(q);
    Base64NumberOf(q[..n]);
  }

  lemma TripleReadsBits(s: Text)
    requires |s| == 4 && forall i | 0 <= i < 4 :: Value(s[i]) >= 0
    ensures var b := Triple(s); 65536 * (b[0] as int) + 256 * (b[1] as int) + b[2] as int == Base64Number(s)
  {
    hide Base64Number;
    Base64NumberOf(s);
  }

  /**
   What decoding is: four symbols are three bytes for the same number; two or
   three left over are one or two bytes, whatever their last bits; one left over,
   or anything that is no symbol, is refused.
   */
  lemma DecodeReadsBits(s: Text)
    requires forall c | c in s :: Value(c) >= 0
    ensures |s| == 1 ==> DecodeSymbols(s) == None
    ensures |s| == 2 ==>
              var r := DecodeSymbols(s);
              r.Some? && |r.value| == 1 && 0 <= Base64Number(s) - 16 * (r.value[0] as int) < 16
    ensures |s| == 3 ==>
              var r := DecodeSymbols(s);
              r.Some? && |r.value| == 2 && 0 <= Base64Number(s) - 4 * (256 * (r.value[0] as int) + r.value[1] as int) < 4
    ensures |s| >= 4 ==>
              var (r, rest) := (DecodeSymbols(s), DecodeSymbols(s[4..]));
              && (r.Some? <==> rest.Some?)
              && (r.Some? ==>
                    && |r.value| >= 3 && r.value[3..] == rest.value
                    && 65536 * (r.value[0] as int) + 256 * (r.value[1] as int) + r.value[2] as int == Base64Number(s[..4]))
  {
    hide Base64Number;
    Base64NumberOf(s);
    if |s| >= 4 {
      assert forall i | 0 <= i < 4 :: s[..4][i] in s;
      TripleReadsBits(s[..4]);
    } else if |s| >= 2 {
      assert forall i | 0 <= i < |s| :: s[i] in s;
    }
  }

  lemma TripleUndoesQuad(x: Byte, y: Byte, z: Byte)
    ensures Triple(Quad(x, y, z)) == [x, y, z]
  {
    var (a, b, c) := (x as int, y as int, z as int);
    assert (a % 4 * 16 + b / 16) / 16 == a % 4 && (a % 4 * 16 + b / 16) % 16 == b / 16;
    assert (b % 16 * 4 + c / 64) / 4 == b % 16 && (b % 16 * 4 + c / 64) % 4 == c / 64;
  }

  lemma DecodeQuad(q: Text, rest: Text)
    requires |q| == 4 && forall i | 0 <= i < 4 :: Value(q[i]) >= 0
    requires DecodeSymbols(rest).Some?
    ensures DecodeSymbols(q + rest) == Some(Triple(q) + DecodeSymbols(rest).value)
  {
    assert (q + rest)[..4] == q && (q + rest)[4..] == rest;
  }

  lemma DecodeTail(q: Text, n: nat)
    requires |q| == 4 && (forall i | 0 <= i < 4 :: Value(q[i]) >= 0) && (n == 2 || n == 3)
    requires forall i | n <= i < 4 :: q[i] == 'A'
    ensures DecodeSymbols(q[..n]) == Some(Triple(q)[..n - 1])
  {
    assert q == q[..n] + (if n == 2 then "AA" else "A");
  }

  lemma DecodeUndoesEncodeOne(x: Byte)
    ensures DecodeSymbols(Encode([x])) == Some([x])
  {
    var q := Quad(x, NUL, NUL);
    assert q[2] == 'A' && q[3] == 'A' by {
      assert NUL as int % 16 * 4 + NUL as int / 64 == 0 && Symbol(0) == 'A';
    }
    assert Triple(q)[..1] == [x] by {
      TripleUndoesQuad(x, NUL, NUL);
    }
    DecodeTail(q, 2);
  }

  lemma DecodeUndoesEncodeTwo(x: Byte, y: Byte)
    ensures DecodeSymbols(Encode([x, y])) == Some([x, y])
  {
    var q := Quad(x, y, NUL);
    assert q[3] == 'A' by {
      assert NUL as int % 64 == 0 && Symbol(0) == 'A';
    }
    assert Encode([x, y]) == q[..3];
    hide Encode, Quad, Triple, DecodeSymbols;
    TripleUndoesQuad(x, y, NUL);
    DecodeTail(q, 3);
    assert [x, y, NUL][..2] == [x, y];
  }

  lemma {:induction false} DecodeUndoesEncodeSymbols(b: Text)
    ensures DecodeSymbols(Encode(b)) == Some(b)
  {
    if |b| >= 3 {
      var (q, rest) := (Quad(b[0], b[1], b[2]), Encode(b[3..]));
      assert Encode(b) == q + rest && b == [b[0], b[1], b[2]] + b[3..];
      hide Encode, Quad, Triple, DecodeSymbols;
      DecodeUndoesEncodeSymbols(b[3..]);
      TripleUndoesQuad(b[0], b[1], b[2]);
      DecodeQuad(q, rest);
    } else if |b| == 2 {
      assert b == [b[0], b[1]];
      DecodeUndoesEncodeTwo(b[0], b[1]);
    } else if |b| == 1 {
      assert b == [b[0]];
      DecodeUndoesEncodeOne(b[0]);
    }
  }

  lemma {:induction false} NoNewlinesToDrop(s: Text)
    requires forall c | c in s :: Value(c) >= 0
    ensures DropNewlines(s) == s
  {
    if s != [] {
      assert Value(s[0]) >= 0;
      NoNewlinesToDrop(s[1..]);
    }
  }

  /** The decoder undoes the encoder on every byte string. */
  lemma DecodeUndoesEncode(b: Text)
    ensures Decode(Encode(b)) == Some(b)
  {
    NoNewlinesToDrop(Encode(b));
    DecodeUndoesEncodeSymbols(b);
  }

  lemma EncodeInjective(a: Text, b: Text)
    requires Encode(a) == Encode(b)
    ensures a == b
  {
    DecodeUndoesEncode(a);
    DecodeUndoesEncode(b);
  }

  lemma {:induction false} DropNewlinesKeeps(s: Text, c: Byte)
    requires c != '\r' && c != '\n'
    ensures Count(DropNewlines(s), c) == Count(s, c)
    ensures c in DropNewlines(s) <==> c in s
  {
    if s != [] {
      DropNewlinesKeeps(s[1..], c);
      if s[0] != '\r' && s[0] != '\n' {
        assert DropNewlines(s)[1..] == DropNewlines(s[1..]);
      }
    }
  }

  function DropNewline(c: Byte): (r: Text) { if c == '\r' || c == '\n' then [] else [c] }

  lemma DropNewlinesFront(c: Byte, s: Text)
    ensures DropNewlines([c] + s) == DropNewline(c) + DropNewlines(s)
  {
    assert ([c] + s)[1..] == s;
  }

  lemma {:induction false} DropNewlinesConcat(a: Text, b: Text)
    ensures DropNewlines(a + b) == DropNewlines(a) + DropNewlines(b)
  {
    if a == [] {
      assert a + b == b;
    } else {
      hide DropNewlines, DropNewline;
      DropNewlinesConcat(a[1..], b);
      DropNewlinesFront(a[0], a[1..]);
      DropNewlinesFront(a[0], a[1..] + b);
      assert a + b == [a[0]] + (a[1..] + b) && a == [a[0]] + a[1..];
    }
  }

  lemma DropNewlinesOne(c: Byte)
    ensures DropNewlines([c]) == DropNewline(c)
  {
  }

  lemma DropNewlinesJoined(a: Text, c: Byte, b: Text)
    requires c != '\r' && c != '\n'
    ensures DropNewlines(Joined(a, c, b)) == Joined(DropNewlines(a), c, DropNewlines(b))
  {
    hide DropNewlines;
    DropNewlinesConcat(a + [c], b);
    DropNewlinesConcat(a, [c]);
    DropNewlinesOne(c);
  }

  /** A line break anywhere is dropped again. */
  lemma DropNewlinesBroken(s: Text, i: nat)
    requires i <= |s|
    ensures DropNewlines(s[..i] + "\n" + s[i..]) == DropNewlines(s)
  {
    hide DropNewlines;
    var (a, b) := (s[..i], s[i..]);
    DropNewlinesConcat(a + "\n", b);
    DropNewlinesConcat(a, "\n");
    DropNewlinesConcat(a, b);
    DropNewlinesOne('\n');
    assert a + b == s;
  }

  lemma {:induction false} DropNewlinesTwice(s: Text)
    ensures DropNewlines(DropNewlines(s)) == DropNewlines(s)
  {
    if s != [] {
      DropNewlinesTwice(s[1..]);
      if s[0] != '\r' && s[0] != '\n' {
        assert DropNewlines(s)[1..] == DropNewlines(s[1..]);
      }
    }
  }

  lemma {:induction false} ForeignSymbolsRejected(s: Text, c: Byte)
    requires c in s && Value(c) < 0
    ensures DecodeSymbols(s) == None
  {
    if |s| >= 4 && c in s[4..] {
      ForeignSymbolsRejected(s[4..], c);
    } else if |s| >= 4 {
      assert c == s[0] || c == s[1] || c == s[2] || c == s[3];
    }
  }

  /** Any byte outside the alphabet, other than CR and LF, makes the decoder fail. */
  lemma ForeignByteRejected(s: Text, c: Byte)
    requires c in s && Value(c) < 0 && c != '\r' && c != '\n'
    ensures Decode(s) == None
  {
    DropNewlinesKeeps(s, c);
    ForeignSymbolsRejected(DropNewlines(s), c);
  }
}
