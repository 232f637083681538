/**
 Byte strings and the handful of string searches the authorization package is
 written with. A Go string is a sequence of bytes, so `Byte` is a character
 below 256 and `Text` a sequence of them.
 */
module Strings {

  type Byte = c: char | c < 256 as char witness 'a'
  type Text = seq<Byte>

  predicate IsSpace(c: Byte) {
    c == ' ' || '\t' <= c <= '\r'
  }

  function TrimLeft(s: Text): (r: Text)
    ensures |r| <= |s| && (|r| == |s| ==> r == s)
    ensures r != [] ==> r[|r| - 1] == s[|s| - 1]
    ensures r != [] ==> !IsSpace(r[0])
  {
    if s != [] && IsSpace(s[0]) then TrimLeft(s[1..]) else s
  }

  function TrimRight(s: Text): (r: Text)
    ensures r <= s
    ensures r != [] ==> !IsSpace(r[|r| - 1])
  {
    if s != [] && IsSpace(s[|s| - 1]) then TrimRight(s[..|s| - 1]) else s
  }

  function TrimSpace(s: Text): (r: Text)
    ensures |r| <= |s|
  {
    TrimRight(TrimLeft(s))
  }

  /** `s` starts and ends with a byte that is not white space. */
  predicate Trimmed(s: Text) {
    s == [] || (!IsSpace(s[0]) && !IsSpace(s[|s| - 1]))
  }

  lemma {:induction false} TrimRightKeepsFirst(s: Text)
    requires s != [] && !IsSpace(s[0])
    ensures TrimRight(s) != []
  {
    if IsSpace(s[|s| - 1]) {
      TrimRightKeepsFirst(s[..|s| - 1]);
    }
  }

  /** Trimming does not reach behind a byte that is no white space. */
  lemma {:induction false} TrimStopsAt(a: Text, b: Text)
    requires b != [] && !IsSpace(b[0]) && !IsSpace(b[|b| - 1])
    ensures TrimSpace(a + b) == TrimLeft(a) + b
  {
    if a != [] && IsSpace(a[0]) {
      assert (a + b)[1..] == a[1..] + b;
      TrimStopsAt(a[1..], b);
    } else {
      assert a == [] ==> a + b == b;
      assert TrimLeft(a + b) == a + b;
    }
  }

  lemma TrimIsIdentityOnTrimmed(s: Text)
    ensures TrimSpace(s) == s <==> Trimmed(s)
    ensures TrimSpace(s) != s ==> |TrimSpace(s)| < |s|
    ensures Trimmed(TrimSpace(s))
  {
    var l := TrimLeft(s);
    var r := TrimRight(l);
    assert r != [] ==> r[0] == l[0];
  }

  /** White space is space, tab, LF, VT, FF and CR. */
  lemma WhiteSpaceIs(c: Byte)
    ensures IsSpace(c) <==> c as int in {32, 9, 10, 11, 12, 13}
  {
  }

  /** Trimming takes white space off both ends and nothing else. */
  lemma TrimTakesWhiteSpace(s: Text) returns (a: Text, b: Text)
    ensures s == a + TrimSpace(s) + b && Trimmed(TrimSpace(s))
    ensures (forall c | c in a :: IsSpace(c)) && (forall c | c in b :: IsSpace(c))
  {
    a := TrimLeftTakes(s);
    b := TrimRightTakes(TrimLeft(s));
    TrimIsIdentityOnTrimmed(s);
  }

  lemma {:induction false} TrimLeftTakes(s: Text) returns (a: Text)
    ensures s == a + TrimLeft(s) && forall c | c in a :: IsSpace(c)
  {
    a := [];
    if s != [] && IsSpace(s[0]) {
      a := TrimLeftTakes(s[1..]);
      assert s == [s[0]] + s[1..];
      a := [s[0]] + a;
    }
  }

  lemma {:induction false} TrimRightTakes(s: Text) returns (b: Text)
    ensures s == TrimRight(s) + b && forall c | c in b :: IsSpace(c)
  {
    b := [];
    if s != [] && IsSpace(s[|s| - 1]) {
      b := TrimRightTakes(s[..|s| - 1]);
      assert s == s[..|s| - 1] + [s[|s| - 1]];
      b := b + [s[|s| - 1]];
    }
  }

  /** First position of `c`, or -1. */
  function Index(s: Text, c: Byte): (i: int)
    ensures -1 <= i < |s|
    ensures i >= 0 ==> s[i] == c && forall k | 0 <= k < i :: s[k] != c
    ensures i < 0 <==> c !in s
  {
    if s == [] then -1
    else if s[0] == c then 0
    else var r := Index(s[1..], c); if r < 0 then -1 else r + 1
  }

  /** Last position of `c`, or -1. */
  function LastIndex(s: Text, c: Byte): (i: int)
    ensures -1 <= i < |s|
    ensures i >= 0 ==> s[i] == c && forall k | i < k < |s| :: s[k] != c
    ensures i < 0 <==> c !in s
  {
    if s == [] then -1
    else if s[|s| - 1] == c then |s| - 1
    else LastIndex(s[..|s| - 1], c)
  }

  /** First position at which `sub` starts, or -1. */
  function IndexSub(s: Text, sub: Text): (i: int)
    requires sub != []
    ensures i >= 0 ==> i + |sub| <= |s| && s[i..i + |sub|] == sub
    ensures i >= -1
  {
    if |s| < |sub| then -1
    else if sub <= s then 0
    else
      var r := IndexSub(s[1..], sub);
      if r < 0 then -1 else assert s[1..][r..r + |sub|] == s[r + 1..r + 1 + |sub|]; r + 1
  }

  /** It is the first position, and -1 means that there is none. */
  lemma {:induction false} IndexSubIsFirst(s: Text, sub: Text, k: nat)
    requires sub != [] && k + |sub| <= |s| && s[k..k + |sub|] == sub
    ensures 0 <= IndexSub(s, sub) <= k
  {
    if !(sub <= s) {
      assert k > 0;
      assert s[1..][k - 1..k - 1 + |sub|] == s[k..k + |sub|];
      IndexSubIsFirst(s[1..], sub, k - 1);
    }
  }

  function Count(s: Text, c: Byte): (n: nat)
    ensures n == 0 <==> c !in s
  {
    if s == [] then 0 else (if s[0] == c then 1 else 0) + Count(s[1..], c)
  }

  lemma {:induction false} CountConcat(a: Text, b: Text, c: Byte)
    ensures Count(a + b, c) == Count(a, c) + Count(b, c)
  {
    if a == [] {
      assert a + b == b;
    } else {
      assert (a + b)[1..] == a[1..] + b;
      CountConcat(a[1..], b, c);
    }
  }

  /** Exactly one `c` means: a first `c`, and none after it. */
  lemma CountOne(s: Text, c: Byte)
    ensures Count(s, c) == 1 <==> Index(s, c) >= 0 && c !in s[Index(s, c) + 1..]
    ensures Count(s, c) >= 2 <==> Index(s, c) >= 0 && c in s[Index(s, c) + 1..]
  {
    var i := Index(s, c);
    if i >= 0 {
      assert s == s[..i] + ([c] + s[i + 1..]);
      CountConcat(s[..i], [c] + s[i + 1..], c);
      assert ([c] + s[i + 1..])[1..] == s[i + 1..];
      assert c !in s[..i];
    }
  }

  /** ASCII lower-casing of one byte. */
  function LowerByte(c: Byte): (r: Byte)
    ensures !('A' <= r <= 'Z')
    ensures r == c || ('A' <= c <= 'Z' && 'a' <= r <= 'z')
    ensures IsSpace(r) <==> IsSpace(c)
  {
    if 'A' <= c <= 'Z' then (c as int + 32) as char else c
  }

  /** FoldRepoFullName on values: every ASCII capital lowered, nothing else moved. */
  function Fold(s: Text): (r: Text)
    ensures |r| == |s|
    ensures forall i | 0 <= i < |s| :: r[i] == LowerByte(s[i])
  {
    seq(|s|, i requires 0 <= i < |s| => LowerByte(s[i]))
  }

  /** The twenty-six capitals become the small letters in their order; nothing else changes. */
  lemma LettersAre(c: Byte)
    ensures LowerByte('A') == 'a' && LowerByte('Z') == 'z'
    ensures 'A' <= c < 'Z' ==> LowerByte((c as int + 1) as char) as int == LowerByte(c) as int + 1
    ensures c < 'A' || 'Z' < c ==> LowerByte(c) == c
  {
  }

  lemma FoldIdempotent(s: Text)
    ensures Fold(Fold(s)) == Fold(s)
  {
  }

  /** Folding moves no byte that is not a letter: separators stay where they are. */
  lemma FoldKeeps(s: Text, c: Byte)
    requires !('A' <= c <= 'Z') && !('a' <= c <= 'z')
    ensures c in Fold(s) <==> c in s
    ensures Count(Fold(s), c) == Count(s, c)
    ensures Index(Fold(s), c) == Index(s, c)
  {
    if s != [] {
      assert Fold(s)[1..] == Fold(s[1..]);
      FoldKeeps(s[1..], c);
    }
  }

  /** Two strings around a separator. */
  function Joined(a: Text, c: Byte, b: Text): (r: Text)
    ensures |r| == |a| + 1 + |b| && r[|a|] == c
    ensures a != [] ==> r[0] == a[0]
    ensures b != [] ==> r[|r| - 1] == b[|b| - 1]
  {
    a + [c] + b
  }

  /** A separator that does not occur in the first part is where the string splits. */
  lemma JoinedSplits(a: Text, c: Byte, b: Text)
    ensures Joined(a, c, b)[..|a|] == a && Joined(a, c, b)[|a| + 1..] == b
    ensures c !in a ==> Index(Joined(a, c, b), c) == |a|
    ensures c !in a && c !in b ==> LastIndex(Joined(a, c, b), c) == |a| && Count(Joined(a, c, b), c) == 1
  {
    var r := Joined(a, c, b);
    assert forall i | 0 <= i < |a| :: r[i] == a[i];
    assert forall i | |a| < i < |r| :: r[i] == b[i - |a| - 1];
    assert r[..|a|] == a && r[|a| + 1..] == b;
    CountOne(r, c);
  }

  lemma FoldJoined(a: Text, c: Byte, b: Text)
    requires !('A' <= c <= 'Z')
    ensures Fold(Joined(a, c, b)) == Joined(Fold(a), c, Fold(b))
  {
  }

  predicate IsDigit(c: Byte) { '0' <= c <= '9' }

  function Decimal(s: Text): (n: nat)
    requires forall c | c in s :: IsDigit(c)
  {
    if s == [] then 0 else assert IsDigit(s[|s| - 1]); 10 * Decimal(s[..|s| - 1]) + (s[|s| - 1] as int - '0' as int)
  }

  /** strconv.Atoi succeeds: optional sign, at least one digit, value fits 64 bits. */
  predicate Atoi(s: Text) {
    var digits := if s != [] && (s[0] == '+' || s[0] == '-') then s[1..] else s;
    && digits != []
    && (forall c | c in digits :: IsDigit(c))
    && Decimal(digits) < 0x8000_0000_0000_0000 + (if s[0] == '-' then 1 else 0)
  }

  lemma {:induction false} DecimalDigits(s: Text)
    requires forall c | c in s :: IsDigit(c)
    ensures Decimal(s) < Power(|s|)
  {
    if s != [] {
      assert forall c | c in s[..|s| - 1] :: c in s;
      DecimalDigits(s[..|s| - 1]);
      assert IsDigit(s[|s| - 1]);
    }
  }

  /** Ten to the `n`. */
  function Power(n: nat): (r: nat) { if n == 0 then 1 else 10 * Power(n - 1) }

  /**
   Digits with or without a sign are a number if their value fits 64 bits, as it
   does for up to eighteen of them; anything else among them is not.
   */
  lemma NumbersAre(s: Text, sign: Text)
    requires sign == [] || sign == "+" || sign == "-"
    ensures s != [] && (forall c | c in s :: '0' <= c <= '9') ==>
              && (Atoi(sign + s) <==> Decimal(s) <= if sign == "-" then 9_223_372_036_854_775_808 else 9_223_372_036_854_775_807)
              && (|s| <= 18 ==> Atoi(sign + s))
    ensures (exists c :: c in s && !('0' <= c <= '9')) && !(sign == [] && s[0] in {'+', '-'}) ==> !Atoi(sign + s)
    ensures !Atoi(sign)
  {
    assert sign != [] ==> (sign + s)[1..] == s;
    assert sign == [] ==> sign + s == s;
    var t := sign + s;
    var digits := if t != [] && (t[0] == '+' || t[0] == '-') then t[1..] else t;
    if s != [] && (forall c | c in s :: IsDigit(c)) {
      assert IsDigit(s[0]) && digits == s;
      if |s| <= 18 {
        DecimalDigits(s);
        PowerGrows(|s|, 18);
        PowerEighteen();
      }
    }
  }

  lemma {:induction false} PowerGrows(m: nat, n: nat)
    requires m <= n
    ensures Power(m) <= Power(n)
    decreases n
  {
    if m < n {
      PowerGrows(m, n - 1);
    }
  }

  lemma PowerEighteen()
    ensures Power(18) == 1_000_000_000_000_000_000
  {
    assert Power(6) == 1_000_000;
    assert Power(12) == 1_000_000_000_000;
  }

  /** Go's string order. */
  predicate Before(a: Text, b: Text)
    decreases |a|
  {
    b != [] && (a == [] || a[0] < b[0] || (a[0] == b[0] && Before(a[1..], b[1..])))
  }

  /** Byte order: the shorter of two strings that agree as far as it goes, or the smaller byte where they first differ. */
  lemma {:induction false} BeforeExactly(a: Text, b: Text)
    ensures Before(a, b) <==> a < b || exists n :: 0 <= n < |a| && n < |b| && a[..n] == b[..n] && a[n] < b[n]
    decreases |a|
  {
    if a != [] && b != [] && a[0] == b[0] {
      BeforeExactly(a[1..], b[1..]);
      assert a == [a[0]] + a[1..] && b == [b[0]] + b[1..];
      if n :| 0 <= n < |a[1..]| && n < |b[1..]| && a[1..][..n] == b[1..][..n] && a[1..][n] < b[1..][n] {
        assert a[..n + 1] == [a[0]] + a[1..][..n] && b[..n + 1] == [b[0]] + b[1..][..n] && a[n + 1] < b[n + 1];
      }
      if n :| 0 <= n < |a| && n < |b| && a[..n] == b[..n] && a[n] < b[n] {
        assert n > 0 && a[1..][..n - 1] == a[..n][1..] && b[1..][..n - 1] == b[..n][1..] && a[1..][n - 1] < b[1..][n - 1];
      }
    } else if a != [] && b != [] {
      assert a[..0] == b[..0];
      assert forall n | 0 < n <= |a| && n <= |b| :: a[..n][0] != b[..n][0];
    }
  }

  lemma {:induction false} BeforeIsTotal(a: Text, b: Text)
    ensures Before(a, b) || Before(b, a) || a == b
    ensures !(Before(a, b) && Before(b, a))
    decreases |a|
  {
    if a != [] && b != [] && a[0] == b[0] {
      BeforeIsTotal(a[1..], b[1..]);
      assert a == [a[0]] + a[1..] && b == [b[0]] + b[1..];
    }
  }

  lemma {:induction false} BeforeIsTransitive(a: Text, b: Text, c: Text)
    requires Before(a, b) && Before(b, c)
    ensures Before(a, c)
    decreases |a|
  {
    if a != [] && a[0] == b[0] == c[0] {
      BeforeIsTransitive(a[1..], b[1..], c[1..]);
    }
  }

  /** FoldRepoFullName: copies the bytes only when a capital occurs, then rewrites them in place. */
  method FoldRepoFullName(s: Text) returns (r: Text)
    ensures r == Fold(s)
  {
    var upper := false;
    for i := 0 to |s|
      invariant !upper && forall k | 0 <= k < i :: LowerByte(s[k]) == s[k]
    {
      if 'A' <= s[i] <= 'Z' {
        upper := true;
        break;
      }
    }
    if !upper {
      assert Fold(s) == s;
      return s;
    }
    var b := new Byte[|s|](i requires 0 <= i < |s| => s[i]);
    for i := 0 to b.Length
      invariant forall k | 0 <= k < i :: b[k] == LowerByte(s[k])
      invariant forall k | i <= k < b.Length :: b[k] == s[k]
    {
      if 'A' <= b[i] <= 'Z' {
        b[i] := (b[i] as int + 32) as char;
      }
    }
    r := b[..];
  }
}
