/**
 String helpers standing in for the JavaScript built-ins the generator uses:
 `Array.prototype.join`, `String.prototype.split` with a one-character separator,
 a global one-character `replace`, and `Number.prototype.toString` on counts.
 */
module Text {
  import opened Wrappers

  /** `parts.join(sep)`: the parts in order with `sep` between neighbours. */
  function Join(parts: seq<string>, sep: string): string
  {
    if |parts| == 0 then ""
    else if |parts| == 1 then parts[0]
    else parts[0] + sep + Join(parts[1..], sep)
  }

  /** Joining a part in front of a non-empty list puts one separator between them. */
  lemma JoinCons(p: string, parts: seq<string>, sep: string)
    ensures Join([p], sep) == p
    ensures |parts| > 0 ==> Join([p] + parts, sep) == p + sep + Join(parts, sep)
  {
    assert ([p] + parts)[1..] == parts;
  }

  /** Joining a sequence whose first part is extended by `p` on the left. */
  lemma {:induction false} JoinExtendFirst(p: string, parts: seq<string>, sep: string)
    requires |parts| >= 1
    ensures Join([p + parts[0]] + parts[1..], sep) == p + Join(parts, sep)
  {
    var q := [p + parts[0]] + parts[1..];
    assert q[1..] == parts[1..];
  }

  /** The index where `x` first occurs in `xs`. */
  function FirstIndex<T(==)>(xs: seq<T>, x: T): (k: nat)
    requires x in xs
    ensures k < |xs| && xs[k] == x && x !in xs[..k]
  {
    if xs[0] == x then 0
    else
      var k := FirstIndex(xs[1..], x) + 1;
      assert xs[..k] == [xs[0]] + xs[1..][..k - 1];
      k
  }

  /** Global replacement of every `c` in `s` by `rep`, as `s.replace(/c/g, rep)`. */
  function ReplaceChar(s: string, c: char, rep: string): string
  {
    if |s| == 0 then ""
    else (if s[0] == c then rep else [s[0]]) + ReplaceChar(s[1..], c, rep)
  }

  /** A replacement without `c` in it removes every `c`. */
  lemma {:induction false} ReplaceCharRemoves(s: string, c: char, rep: string)
    requires c !in rep
    ensures c !in ReplaceChar(s, c, rep)
  {
    if |s| > 0 {
      ReplaceCharRemoves(s[1..], c, rep);
    }
  }

  /** Number of occurrences of `c` in `s`. */
  function CountChar(s: string, c: char): nat
  {
    if |s| == 0 then 0
    else (if s[0] == c then 1 else 0) + CountChar(s[1..], c)
  }

  /** Replacement works character by character, so it distributes over concatenation. */
  lemma {:induction false} ReplaceCharAppend(a: string, b: string, c: char, rep: string)
    ensures ReplaceChar(a + b, c, rep) == ReplaceChar(a, c, rep) + ReplaceChar(b, c, rep)
  {
    if |a| > 0 {
      assert (a + b)[0] == a[0];
      assert (a + b)[1..] == a[1..] + b;
      ReplaceCharAppend(a[1..], b, c, rep);
    } else {
      assert a + b == b;
    }
  }

  /** A string without `c` is left unchanged. */
  lemma {:induction false} ReplaceCharAbsent(s: string, c: char, rep: string)
    requires c !in s
    ensures ReplaceChar(s, c, rep) == s
  {
    if |s| > 0 {
      assert c !in s[1..];
      ReplaceCharAbsent(s[1..], c, rep);
    }
  }

  /**
   `s.split(c)` for a one-character separator: the maximal runs between
   separators, always at least one (possibly empty) piece.
   */
  function Split(s: string, c: char): (parts: seq<string>)
    ensures |parts| == CountChar(s, c) + 1
    ensures forall i :: 0 <= i < |parts| ==> c !in parts[i]
    ensures Join(parts, [c]) == s
  {
    if |s| == 0 then [""]
    else
      var rest := Split(s[1..], c);
      if s[0] == c then
        assert [c] + Join(rest, [c]) == s;
        [""] + rest
      else
        JoinExtendFirst([s[0]], rest, [c]);
        assert [s[0]] + s[1..] == s;
        [[s[0]] + rest[0]] + rest[1..]
  }

  /** `s.split(c).join(rep)` replaces every `c` by `rep`, exactly like a global replace. */
  lemma {:induction false} SplitJoinIsReplace(s: string, c: char, rep: string)
    ensures Join(Split(s, c), rep) == ReplaceChar(s, c, rep)
  {
    if |s| > 0 {
      var rest := Split(s[1..], c);
      SplitJoinIsReplace(s[1..], c, rep);
      if s[0] != c {
        JoinExtendFirst([s[0]], rest, rep);
      }
    }
  }

  /** The decimal digit for `d`. */
  function Digit(d: nat): (ch: char)
    requires d < 10
    ensures IsDigit(ch) && ch as int - '0' as int == d
  {
    "0123456789"[d]
  }

  predicate IsDigit(ch: char)
  {
    '0' <= ch <= '9'
  }

  /** `String(n)` for a non-negative integer: its shortest decimal numeral. */
  function NatToString(n: nat): (r: string)
    ensures |r| >= 1
    ensures forall i :: 0 <= i < |r| ==> IsDigit(r[i])
    ensures |r| > 1 ==> r[0] != '0'
  {
    if n < 10 then [Digit(n)]
    else NatToString(n / 10) + [Digit(n % 10)]
  }

  /** The value of a decimal numeral (most significant digit first). */
  function DecimalValue(s: string): nat
    requires forall i :: 0 <= i < |s| ==> IsDigit(s[i])
  {
    if |s| == 0 then 0
    else
      assert IsDigit(s[|s| - 1]);
      DecimalValue(s[..|s| - 1]) * 10 + (s[|s| - 1] as int - '0' as int)
  }

  /**
   Parses a canonical decimal numeral: non-empty, all digits, and no leading
   zero unless it is `0` itself. Anything else is `None`.
   */
  function ParseNat(s: string): Option<nat>
  {
    if |s| > 0 && (forall i :: 0 <= i < |s| ==> IsDigit(s[i])) && (|s| > 1 ==> s[0] != '0')
    then Some(DecimalValue(s))
    else None
  }

  /** Reading back the numeral that `NatToString` writes gives the number. */
  lemma {:induction false} NatToStringRoundTrip(n: nat)
    ensures ParseNat(NatToString(n)) == Some(n)
  {
    var r := NatToString(n);
    if n < 10 {
      assert r[..0] == [];
      assert DecimalValue(r) == DecimalValue(r[..0]) * 10 + (r[0] as int - '0' as int);
    } else {
      NatToStringRoundTrip(n / 10);
      assert r[..|r| - 1] == NatToString(n / 10);
      assert r[|r| - 1] == Digit(n % 10);
    }
  }

  /** `Digit` reads back the character of a decimal digit. */
  lemma DigitOf(c: char)
    requires IsDigit(c)
    ensures Digit(c as int - '0' as int) == c
  {
  }

  /** A numeral worth zero is all zeros. */
  lemma {:induction false} DecimalValueZero(s: string)
    requires forall i :: 0 <= i < |s| ==> IsDigit(s[i])
    requires DecimalValue(s) == 0
    ensures forall i :: 0 <= i < |s| ==> s[i] == '0'
  {
    if |s| > 0 {
      var p := s[..|s| - 1];
      assert DecimalValue(s) == DecimalValue(p) * 10 + (s[|s| - 1] as int - '0' as int);
      DecimalValueZero(p);
      assert forall i :: 0 <= i < |p| ==> s[i] == p[i];
    }
  }

  /**
   The parser accepts only the numeral `NatToString` prints: whatever it
   reads as `n` is exactly `NatToString(n)`, so no other spelling (leading
   zeros, say) passes.
   */
  lemma {:induction false} ParseNatInverse(s: string)
    requires ParseNat(s).Some?
    ensures NatToString(ParseNat(s).value) == s
  {
    var n := DecimalValue(s);
    var last := s[|s| - 1];
    var d := last as int - '0' as int;
    var p := s[..|s| - 1];
    assert n == DecimalValue(p) * 10 + d;
    DigitOf(last);
    if |s| == 1 {
      assert p == [];
      assert s == [last];
    } else {
      var m := DecimalValue(p);
      assert p[0] == s[0];
      assert ParseNat(p) == Some(m);
      ParseNatInverse(p);
      if m == 0 {
        DecimalValueZero(p);
      }
      assert n / 10 == m && n % 10 == d;
      assert s == p + [last];
    }
  }
}
