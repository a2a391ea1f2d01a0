/** Strings, decimal numbers and optional values, as the translator uses them. */
module Text {

  datatype Option<+T> = None | Some(value: T)

  datatype Result<+T, +E> = Ok(value: T) | Err(error: E)

  predicate HasPrefix(s: string, p: string) { p <= s }

  predicate HasSuffix(s: string, t: string) { |t| <= |s| && s[|s| - |t|..] == t }

  function TrimSuffix(s: string, t: string): string {
    if HasSuffix(s, t) then s[..|s| - |t|] else s
  }

  /** Deletes every occurrence of one character. */
  function Without(s: string, c: char): string {
    if s == "" then "" else (if s[0] == c then "" else [s[0]]) + Without(s[1..], c)
  }

  lemma {:induction false} WithoutDeletes(s: string, c: char)
    ensures c !in Without(s, c) && (c !in s ==> Without(s, c) == s)
  {
    if s != "" { WithoutDeletes(s[1..], c); }
  }

  /** Replaces every occurrence of one character by another. */
  function ReplaceChar(s: string, from: char, to: char): (r: string)
    ensures |r| == |s|
  {
    seq(|s|, i requires 0 <= i < |s| => if s[i] == from then to else s[i])
  }

  function LowerChar(c: char): char {
    if 'A' <= c <= 'Z' then (c as int + 32) as char else c
  }

  /** ASCII lower case: protocol names and header names are ASCII tokens. */
  function ToLower(s: string): (r: string)
    ensures |r| == |s| && forall c :: c in r ==> !('A' <= c <= 'Z')
  {
    seq(|s|, i requires 0 <= i < |s| => LowerChar(s[i]))
  }

  lemma ConcatAssociative<T>(a: seq<T>, b: seq<T>, c: seq<T>)
    ensures (a + b) + c == a + (b + c)
  {
  }

  /** The pieces of s between occurrences of sep; never empty, like Go's strings.Split. */
  function Split(s: string, sep: char): (parts: seq<string>)
    ensures |parts| >= 1
  {
    if s == "" then [""]
    else
      var rest := Split(s[1..], sep);
      if s[0] == sep then [""] + rest else [[s[0]] + rest[0]] + rest[1..]
  }

  function Join(parts: seq<string>, sep: string): string {
    if parts == [] then ""
    else if |parts| == 1 then parts[0]
    else parts[0] + sep + Join(parts[1..], sep)
  }

  /** Splitting at sep and joining with it again gives the text back. */
  lemma {:induction false} SplitJoin(s: string, sep: char)
    ensures Join(Split(s, sep), [sep]) == s
  {
    if s != "" {
      SplitJoin(s[1..], sep);
      var rest := Split(s[1..], sep);
      if s[0] == sep {
        assert ([""] + rest)[1..] == rest;
      } else {
        assert ([[s[0]] + rest[0]] + rest[1..])[1..] == rest[1..];
      }
    }
  }

  /** Joining pieces without the separator and splitting again gives the pieces back. */
  lemma {:induction false} JoinSplit(parts: seq<string>, sep: char)
    requires parts != [] && forall p :: p in parts ==> sep !in p
    ensures Split(Join(parts, [sep]), sep) == parts
  {
    if |parts| == 1 {
      SplitPiece(parts[0], sep);
    } else {
      JoinSplit(parts[1..], sep);
      SplitFirst(parts[0], Join(parts[1..], [sep]), sep);
      assert parts[0] + [sep] + Join(parts[1..], [sep]) == parts[0] + ([sep] + Join(parts[1..], [sep]));
    }
  }

  lemma {:induction false} SplitPiece(p: string, sep: char)
    requires sep !in p
    ensures Split(p, sep) == [p]
  {
    if p != "" {
      assert p[0] in p && forall c :: c in p[1..] ==> c in p;
      SplitPiece(p[1..], sep);
      assert [p[0]] + p[1..] == p;
    }
  }

  lemma {:induction false} SplitFirst(p: string, rest: string, sep: char)
    requires sep !in p
    ensures Split(p + ([sep] + rest), sep) == [p] + Split(rest, sep)
  {
    var s := p + ([sep] + rest);
    if p == "" {
      assert s[1..] == rest;
    } else {
      assert p[0] in p && forall c :: c in p[1..] ==> c in p;
      SplitFirst(p[1..], rest, sep);
      assert s[1..] == p[1..] + ([sep] + rest) && [p[0]] + p[1..] == p;
      assert ([p[1..]] + Split(rest, sep))[1..] == Split(rest, sep);
    }
  }

  /** A text is cut into one list of pieces that prefixes another's exactly when it
      is the other text, or is followed in it by a separator. */
  lemma {:induction false} SplitPrefix(p: string, q: string, sep: char)
    ensures Split(p, sep) <= Split(q, sep) <==> q == p || p + [sep] <= q
  {
    if p != "" && q != "" {
      SplitPrefix(p[1..], q[1..], sep);
      var ps, qs := Split(p[1..], sep), Split(q[1..], sep);
      assert p == [p[0]] + p[1..] && q == [q[0]] + q[1..];
      if p[0] == q[0] {
        assert p + [sep] <= q <==> p[1..] + [sep] <= q[1..] by {
          assert (p + [sep])[1..] == p[1..] + [sep];
          assert p + [sep] == [p[0]] + (p[1..] + [sep]);
        }
        if p[0] == sep {
          assert [""] + ps <= [""] + qs <==> ps <= qs by {
            assert ([""] + ps)[1..] == ps && ([""] + qs)[1..] == qs;
          }
        } else {
          HeadsAgree(p[0], ps, qs);
        }
      } else {
        assert |Split(p, sep)[0]| > 0 && |Split(q, sep)[0]| > 0 ==>
            Split(p, sep)[0][0] == p[0] && Split(q, sep)[0][0] == q[0];
        assert Split(p, sep)[0] == "" <==> p[0] == sep;
        assert Split(q, sep)[0] == "" <==> q[0] == sep;
        assert Split(p, sep)[0] != Split(q, sep)[0];
        assert (p + [sep])[0] == p[0];
      }
    }
  }

  lemma HeadsAgree(c: char, ps: seq<string>, qs: seq<string>)
    requires |ps| >= 1 && |qs| >= 1
    ensures [[c] + ps[0]] + ps[1..] <= [[c] + qs[0]] + qs[1..] <==> ps <= qs
  {
    var a, b := [[c] + ps[0]] + ps[1..], [[c] + qs[0]] + qs[1..];
    assert a[0][1..] == ps[0] && b[0][1..] == qs[0];
    assert a[1..] == ps[1..] && b[1..] == qs[1..];
    if ps <= qs {
      assert forall i :: 1 <= i < |ps| ==> a[i] == ps[i] && b[i] == qs[i];
    }
    if a <= b {
      assert a[0] == b[0];
      forall i | 0 <= i < |ps| ensures ps[i] == qs[i] {
        if i > 0 { assert a[i] == ps[i] && b[i] == qs[i]; }
      }
    }
  }

  // ----- decimal numbers -----

  predicate Digit(c: char) { '0' <= c <= '9' }

  function DigitChar(d: nat): char
    requires d < 10
  {
    ('0' as int + d) as char
  }

  /** The decimal numeral of n, without leading zeros. */
  function Decimal(n: nat): (s: string)
    ensures s != "" && forall c :: c in s ==> Digit(c)
  {
    if n < 10 then [DigitChar(n)] else Decimal(n / 10) + [DigitChar(n % 10)]
  }

  /** A signed number, as "%d" prints it. */
  function Signed(n: int): string {
    if n < 0 then "-" + Decimal(-n) else Decimal(n)
  }

  /** Different numbers have different numerals. */
  lemma {:induction false} DecimalInjective(m: nat, n: nat)
    requires Decimal(m) == Decimal(n)
    ensures m == n
  {
    var a, b := Decimal(m), Decimal(n);
    assert a[|a| - 1] == b[|b| - 1];
    assert |a| >= 2 <==> m >= 10;
    assert |b| >= 2 <==> n >= 10;
    if m >= 10 && n >= 10 {
      assert a[..|a| - 1] == Decimal(m / 10) && b[..|b| - 1] == Decimal(n / 10);
      DecimalInjective(m / 10, n / 10);
    }
  }

  /** A text ending in mark and a mark-free tail can be cut in only one way. */
  lemma CutAtLast(a: string, x: string, b: string, y: string, mark: char)
    requires a + [mark] + x == b + [mark] + y
    requires mark !in x && mark !in y
    ensures a == b && x == y
  {
    LongerTailHoldsMark(a, x, b, y, mark);
    LongerTailHoldsMark(b, y, a, x, mark);
    var s := a + [mark] + x;
    assert a == s[..|a|] && b == (b + [mark] + y)[..|b|];
    assert x == s[|a| + 1..] && y == (b + [mark] + y)[|b| + 1..];
  }

  lemma LongerTailHoldsMark(a: string, x: string, b: string, y: string, mark: char)
    requires a + [mark] + x == b + [mark] + y
    ensures |x| < |y| ==> mark in y
  {
    if |x| < |y| {
      assert (a + [mark] + x)[|a|] == (b + [mark] + y)[|a|] == y[|a| - |b| - 1];
    }
  }
}
