/** String helpers the server relies on: JavaScript's `String.prototype.split`
    with a one-character separator, `Array.prototype.join`, the decimal
    rendering of a number in a template literal, and `Buffer.byteLength`
    (the UTF-8 length of a string). */
module Text {

  /** `s.split(c)`: the pieces of `s` between occurrences of `c`. Splitting the
      empty string gives one empty piece, and a separator at either end gives
      an empty piece there. */
  function Split(s: string, c: char): (r: seq<string>)
    ensures |r| >= 1
    decreases |s|
  {
    if s == [] then [[]]
    else
      var rest := Split(s[1..], c);
      if s[0] == c then [[]] + rest
      else [[s[0]] + rest[0]] + rest[1..]
  }

  /** No piece holds the separator, and there is more than one piece exactly
      when the string holds the separator. */
  lemma {:induction false} SplitPieces(s: string, c: char)
    ensures var r := Split(s, c);
      && (forall i :: 0 <= i < |r| ==> c !in r[i])
      && (c in s <==> |r| >= 2)
    decreases |s|
  {
    if s != [] {
      var t := s[1..];
      SplitPieces(t, c);
      var rest := Split(t, c);
      var r := Split(s, c);
      assert c in s <==> s[0] == c || c in t by {
        assert s == [s[0]] + t;
      }
      if s[0] == c {
        assert forall i :: 1 <= i < |r| ==> r[i] == rest[i - 1];
      } else {
        assert r[0] == [s[0]] + rest[0];
        assert forall i :: 1 <= i < |r| ==> r[i] == rest[i];
      }
    }
  }

  /** `xs.join(sep)`: the elements of `xs` with `sep` between neighbours. */
  function JoinWith(xs: seq<string>, sep: string): string
  {
    if |xs| == 0 then ""
    else if |xs| == 1 then xs[0]
    else xs[0] + sep + JoinWith(xs[1..], sep)
  }

  /** Appending an element adds one separator and the element at the end. */
  lemma {:induction false} JoinWithAppend(xs: seq<string>, x: string, sep: string)
    ensures JoinWith(xs + [x], sep) == if xs == [] then x else JoinWith(xs, sep) + sep + x
    decreases |xs|
  {
    if |xs| == 1 {
      assert xs + [x] == [xs[0], x];
      assert ([xs[0], x])[1..] == [x];
    } else if |xs| > 1 {
      assert (xs + [x])[1..] == xs[1..] + [x];
      JoinWithAppend(xs[1..], x, sep);
    }
  }

  /** A piece containing no separator splits into itself. */
  lemma {:induction false} SplitAtom(a: string, c: char)
    requires c !in a
    ensures Split(a, c) == [a]
    decreases |a|
  {
    if a != [] {
      SplitAtom(a[1..], c);
      assert [a[0]] + a[1..] == a;
    }
  }

  /** The first piece of a split after one more character, computed from the
      pieces `r` of the rest. */
  function ConsPiece(ch: char, c: char, r: seq<string>): seq<string>
    requires |r| >= 1
  {
    if ch == c then [[]] + r else [[ch] + r[0]] + r[1..]
  }

  /** One step of a split: the first character either closes an empty piece
      or starts the first piece of the rest. */
  lemma SplitCons(ch: char, t: string, c: char)
    ensures Split([ch] + t, c) == ConsPiece(ch, c, Split(t, c))
  {
    assert ([ch] + t)[1..] == t;
  }

  lemma ConsPieceAppend(ch: char, c: char, rt: seq<string>, rb: seq<string>)
    requires |rt| >= 1
    ensures ConsPiece(ch, c, rt + rb) == ConsPiece(ch, c, rt) + rb
  {
    if ch == c {
      assert [[]] + (rt + rb) == ([[]] + rt) + rb;
    } else {
      assert (rt + rb)[0] == rt[0];
      assert (rt + rb)[1..] == rt[1..] + rb;
      assert [[ch] + rt[0]] + (rt[1..] + rb) == ([[ch] + rt[0]] + rt[1..]) + rb;
    }
  }

  /** The inductive step of `SplitConcat`: putting a character in front of
      `t` keeps the split of `t + c + b` the split of `t` followed by the
      split of `b`. */
  lemma SplitConcatStep(ch: char, t: string, b: string, c: char)
    requires Split(t + [c] + b, c) == Split(t, c) + Split(b, c)
    ensures Split([ch] + (t + [c] + b), c) == Split([ch] + t, c) + Split(b, c)
  {
    SplitCons(ch, t + [c] + b, c);
    SplitCons(ch, t, c);
    ConsPieceAppend(ch, c, Split(t, c), Split(b, c));
  }

  /** A separator between two strings splits them apart: the pieces of
      `a + c + b` are the pieces of `a` followed by the pieces of `b`. */
  lemma {:induction false} SplitConcat(a: string, b: string, c: char)
    ensures Split(a + [c] + b, c) == Split(a, c) + Split(b, c)
    decreases |a|
  {
    if a == [] {
      assert a + [c] + b == [c] + b;
      SplitCons(c, b, c);
    } else {
      var t := a[1..];
      assert a == [a[0]] + t;
      assert a + [c] + b == [a[0]] + (t + [c] + b);
      SplitConcat(t, b, c);
      SplitConcatStep(a[0], t, b, c);
    }
  }

  /** Joining the pieces of a split with the same separator gives back the
      original string. */
  lemma {:induction false} JoinSplit(s: string, c: char)
    ensures JoinWith(Split(s, c), [c]) == s
    decreases |s|
  {
    if s != [] {
      var rest := Split(s[1..], c);
      JoinSplit(s[1..], c);
      if s[0] == c {
        assert ([[]] + rest)[1..] == rest;
      } else if |rest| == 1 {
        assert [s[0]] + s[1..] == s;
      } else {
        var r := [[s[0]] + rest[0]] + rest[1..];
        assert r[1..] == rest[1..];
        assert JoinWith(rest, [c]) == rest[0] + [c] + JoinWith(rest[1..], [c]);
        assert [s[0]] + s[1..] == s;
      }
    }
  }

  /** Splitting a join of separator-free pieces gives back the pieces. */
  lemma {:induction false} SplitJoin(xs: seq<string>, c: char)
    requires |xs| >= 1
    requires forall i :: 0 <= i < |xs| ==> c !in xs[i]
    ensures Split(JoinWith(xs, [c]), c) == xs
    decreases |xs|
  {
    SplitAtom(xs[0], c);
    if |xs| == 1 {
      assert xs == [xs[0]];
    } else {
      var tail := xs[1..];
      SplitJoin(tail, c);
      var joined := JoinWith(tail, [c]);
      SplitConcat(xs[0], joined, c);
      calc {
        Split(JoinWith(xs, [c]), c);
        Split(xs[0] + [c] + joined, c);
        [xs[0]] + tail;
        xs;
      }
    }
  }

  predicate IsDigit(ch: char) { '0' <= ch <= '9' }

  function DigitChar(d: nat): char
    requires d < 10
  {
    ['0', '1', '2', '3', '4', '5', '6', '7', '8', '9'][d]
  }

  function DigitValue(ch: char): nat
    requires IsDigit(ch)
  {
    (ch as int - '0' as int) as nat
  }

  /** The decimal rendering of a number, as `${n}` produces it. */
  function Decimal(n: nat): (s: string)
    ensures |s| >= 1
    ensures forall i :: 0 <= i < |s| ==> IsDigit(s[i])
    decreases n
  {
    if n < 10 then [DigitChar(n)] else Decimal(n / 10) + [DigitChar(n % 10)]
  }

  /** The number a string of decimal digits denotes. */
  function DecimalValue(s: string): nat
    requires forall i :: 0 <= i < |s| ==> IsDigit(s[i])
    decreases |s|
  {
    if s == [] then 0 else 10 * DecimalValue(s[..|s| - 1]) + DigitValue(s[|s| - 1])
  }

  /** Reading back a rendered number gives the number. */
  lemma {:induction false} DecimalRoundTrip(n: nat)
    ensures DecimalValue(Decimal(n)) == n
    decreases n
  {
    if n >= 10 {
      DecimalRoundTrip(n / 10);
      var s := Decimal(n);
      assert s[..|s| - 1] == Decimal(n / 10);
    }
  }

  /** The number of leading digits of `s`. */
  function DigitRun(s: string): (k: nat)
    ensures k <= |s|
    ensures forall i :: 0 <= i < k ==> IsDigit(s[i])
    ensures k < |s| ==> !IsDigit(s[k])
    decreases |s|
  {
    if s != [] && IsDigit(s[0]) then 1 + DigitRun(s[1..]) else 0
  }

  /** A run of digits followed by a non-digit is read off exactly. */
  lemma {:induction false} DigitRunOf(d: string, t: string)
    requires forall i :: 0 <= i < |d| ==> IsDigit(d[i])
    requires t != [] && !IsDigit(t[0])
    ensures DigitRun(d + t) == |d|
    decreases |d|
  {
    if d != [] {
      assert (d + t)[1..] == d[1..] + t;
      DigitRunOf(d[1..], t);
    }
  }

  /** Bytes of one character in UTF-8. Dafny characters are Unicode scalar
      values, so there are no lone surrogates to account for. */
  function CharBytes(ch: char): nat
  {
    if ch as int < 0x80 then 1
    else if ch as int < 0x800 then 2
    else if ch as int < 0x10000 then 3
    else 4
  }

  /** `Buffer.byteLength(s)`: the length of `s` encoded as UTF-8. */
  function Utf8Length(s: string): (n: nat)
    ensures |s| <= n <= 4 * |s|
    decreases |s|
  {
    if s == [] then 0 else CharBytes(s[0]) + Utf8Length(s[1..])
  }

  /** The byte length of a concatenation is the sum of the byte lengths. */
  lemma {:induction false} Utf8Append(a: string, b: string)
    ensures Utf8Length(a + b) == Utf8Length(a) + Utf8Length(b)
    decreases |a|
  {
    if a != [] {
      assert (a + b)[0] == a[0];
      assert (a + b)[1..] == a[1..] + b;
      Utf8Append(a[1..], b);
    } else {
      assert a + b == b;
    }
  }

  /** An ASCII string has as many bytes as characters, and only an ASCII
      string does. */
  lemma {:induction false} Utf8Ascii(s: string)
    ensures Utf8Length(s) == |s| <==> forall i :: 0 <= i < |s| ==> s[i] as int < 0x80
    decreases |s|
  {
    if s != [] {
      Utf8Ascii(s[1..]);
      assert forall i :: 1 <= i < |s| ==> s[i] == s[1..][i - 1];
    }
  }
}
