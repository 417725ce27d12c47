/**
 * The .NET string operations that `Time` relies on: decimal rendering of an
 * `int`, `PadLeft`, `Split` with `RemoveEmptyEntries`, and `int.Parse` with
 * its default number style. Both number conversions use the current culture;
 * the model takes its signs to be '-' and '+'.
 */
module Text {
  import opened Int32Arith

  datatype Option<T> = None | Some(value: T)

  predicate IsDigit(c: char) { '0' <= c <= '9' }

  function DigitChar(d: int): (c: char)
    requires 0 <= d <= 9
    ensures IsDigit(c) && DigitOf(c) == d
  {
    ('0' as int + d) as char
  }

  function DigitOf(c: char): int
    requires IsDigit(c)
  {
    c as int - '0' as int
  }

  /** Decimal digits of a natural number, without leading zeros. */
  function NatToString(n: nat): (s: string)
    ensures |s| >= 1 && forall i :: 0 <= i < |s| ==> IsDigit(s[i])
    ensures n < 10 <==> |s| == 1
    ensures n > 0 ==> s[0] != '0'
  {
    if n < 10 then [DigitChar(n)] else NatToString(n / 10) + [DigitChar(n % 10)]
  }

  /** `$"{n}"` for an int: an optional '-' followed by the digits of |n|. */
  function IntToString(n: int): string
  {
    if n < 0 then "-" + NatToString(-n) else NatToString(n)
  }

  /** `s.PadLeft(width, c)`: prefix copies of `c` until `s` is `width` long. */
  function PadLeft(s: string, width: nat, c: char): (r: string)
    ensures |r| == if |s| >= width then |s| else width
    ensures r[|r| - |s|..] == s
    ensures forall i :: 0 <= i < |r| - |s| ==> r[i] == c
  {
    if |s| >= width then s else seq(width - |s|, _ => c) + s
  }

  /** `s.Split(new[] {sep}, StringSplitOptions.RemoveEmptyEntries)`. */
  function Split(s: string, sep: char): seq<string>
  {
    SplitFrom(s, sep, [])
  }

  /** Splits `s`, where `cur` is the part of the current segment already read. */
  function SplitFrom(s: string, sep: char, cur: string): (r: seq<string>)
    requires sep !in cur
    ensures forall i :: 0 <= i < |r| ==> r[i] != [] && sep !in r[i]
    decreases |s|
  {
    if s == [] then
      Segment(cur)
    else if s[0] == sep then
      Segment(cur) + SplitFrom(s[1..], sep, [])
    else
      SplitFrom(s[1..], sep, cur + [s[0]])
  }

  /** A finished segment, dropped when empty. */
  function Segment(cur: string): seq<string>
  {
    if cur == [] then [] else [cur]
  }

  /** The white space `int.Parse` skips around a number: U+0009..U+000D and U+0020. */
  predicate IsWhite(c: char) { c == ' ' || '\t' <= c <= '\r' }

  /** `s` without its leading white space. */
  function TrimStart(s: string): string
    decreases |s|
  {
    if s != [] && IsWhite(s[0]) then TrimStart(s[1..]) else s
  }

  /** `s` without its trailing white space. */
  function TrimEnd(s: string): string
    decreases |s|
  {
    if s != [] && IsWhite(s[|s| - 1]) then TrimEnd(s[..|s| - 1]) else s
  }

  /** `s` without the '\0' characters at its end, which `int.Parse` accepts after a number. */
  function TrimNulls(s: string): string
    decreases |s|
  {
    if s != [] && s[|s| - 1] == '\0' then TrimNulls(s[..|s| - 1]) else s
  }

  /** `TrimStart` removes a prefix of white space and stops at the first other character. */
  lemma {:induction false} TrimStartSpec(s: string)
    ensures var r := TrimStart(s);
      |r| <= |s| && r == s[|s| - |r|..]
      && (forall i :: 0 <= i < |s| - |r| ==> IsWhite(s[i]))
      && (r != [] ==> !IsWhite(r[0]))
    decreases |s|
  {
    if s != [] && IsWhite(s[0]) {
      TrimStartSpec(s[1..]);
      var r := TrimStart(s[1..]);
      assert s[1..][|s| - 1 - |r|..] == s[|s| - |r|..];
      forall i | 0 < i < |s| - |r|
        ensures IsWhite(s[i])
      {
        assert s[i] == s[1..][i - 1];
      }
    }
  }

  /** `TrimEnd` removes a suffix of white space and stops at the last other character. */
  lemma {:induction false} TrimEndSpec(s: string)
    ensures var r := TrimEnd(s);
      |r| <= |s| && r == s[..|r|]
      && (forall i :: |r| <= i < |s| ==> IsWhite(s[i]))
      && (r != [] ==> !IsWhite(r[|r| - 1]))
    decreases |s|
  {
    if s != [] && IsWhite(s[|s| - 1]) {
      TrimEndSpec(s[..|s| - 1]);
      var r := TrimEnd(s[..|s| - 1]);
      assert s[..|s| - 1][..|r|] == s[..|r|];
      forall i | |r| <= i < |s| - 1
        ensures IsWhite(s[i])
      {
        assert s[i] == s[..|s| - 1][i];
      }
    }
  }

  /** `TrimNulls` removes a suffix of '\0' characters and stops at the last other character. */
  lemma {:induction false} TrimNullsSpec(s: string)
    ensures var r := TrimNulls(s);
      |r| <= |s| && r == s[..|r|]
      && (forall i :: |r| <= i < |s| ==> s[i] == '\0')
      && (r != [] ==> r[|r| - 1] != '\0')
    decreases |s|
  {
    if s != [] && s[|s| - 1] == '\0' {
      TrimNullsSpec(s[..|s| - 1]);
      var r := TrimNulls(s[..|s| - 1]);
      assert s[..|s| - 1][..|r|] == s[..|r|];
      forall i | |r| <= i < |s| - 1
        ensures s[i] == '\0'
      {
        assert s[i] == s[..|s| - 1][i];
      }
    }
  }

  predicate AllDigits(s: string) { forall i :: 0 <= i < |s| ==> IsDigit(s[i]) }

  /** The value of a string of decimal digits, most significant first. */
  function DigitsValue(s: string): (v: nat)
    requires AllDigits(s)
  {
    if s == [] then 0 else DigitsValue(s[..|s| - 1]) * 10 + DigitOf(s[|s| - 1])
  }

  /**
   * `int.Parse(s)` with `NumberStyles.Integer`: leading white space, an
   * optional '+' or '-', at least one ASCII digit, trailing white space, and
   * then nothing but '\0' characters; `None` stands for the FormatException
   * or OverflowException it would throw.
   */
  function ParseInt32(s: string): Option<int32>
  {
    ParseSigned(TrimEnd(TrimStart(TrimNulls(s))))
  }

  /** The trimmed text of `int.Parse`: an optional sign, then digits only. */
  function ParseSigned(t: string): Option<int32>
  {
    var negative := t != [] && t[0] == '-';
    var digits := if t != [] && (t[0] == '-' || t[0] == '+') then t[1..] else t;
    if digits == [] || !AllDigits(digits) then None
    else
      var v: int := if negative then -(DigitsValue(digits) as int) else DigitsValue(digits);
      if -TwoTo31 <= v < TwoTo31 then Some(v) else None
  }

  // ---------------------------------------------------------------------------
  // Round trips between rendering and parsing

  lemma {:induction false} DigitsValueOfNatToString(n: nat)
    ensures DigitsValue(NatToString(n)) == n
  {
    if n >= 10 {
      DigitsValueOfNatToString(n / 10);
      var s := NatToString(n);
      assert s[..|s| - 1] == NatToString(n / 10);
    }
  }

  lemma {:induction false} TrimNoWhite(s: string)
    requires forall i :: 0 <= i < |s| ==> !IsWhite(s[i])
    requires s != [] ==> s[|s| - 1] != '\0'
    ensures TrimEnd(TrimStart(TrimNulls(s))) == s
  {
  }

  /** '\0' characters after a number do not change what `int.Parse` reads. */
  lemma ParseTrailingNull(s: string)
    ensures ParseInt32(s + ['\0']) == ParseInt32(s)
  {
    assert (s + ['\0'])[..|s|] == s;
    assert TrimNulls(s + ['\0']) == TrimNulls(s);
  }

  /** Parsing what `$"{n}"` renders gives `n` back, for every int32. */
  lemma ParseIntToString(n: int32)
    ensures ParseInt32(IntToString(n)) == Some(n)
  {
    if n < 0 {
      var m := -(n as int);
      DigitsValueOfNatToString(m);
      ParseNegativeDigits(NatToString(m));
    } else {
      DigitsValueOfNatToString(n);
      ParseDigits(NatToString(n));
    }
  }

  /** A '-' followed by a non-empty string of digits whose negated value fits parses to that value. */
  lemma ParseNegativeDigits(digits: string)
    requires digits != [] && AllDigits(digits) && DigitsValue(digits) <= TwoTo31
    ensures ParseInt32("-" + digits) == Some(-(DigitsValue(digits) as int))
  {
    var s := "-" + digits;
    TrimNoWhite(s);
    assert s[1..] == digits;
  }

  /** A number in [0, 99] padded to width 2 is exactly its two decimal digits. */
  lemma TwoDigits(n: int)
    requires 0 <= n <= 99
    ensures PadLeft(IntToString(n), 2, '0') == [DigitChar(n / 10), DigitChar(n % 10)]
  {
    if n >= 10 {
      assert NatToString(n / 10) == [DigitChar(n / 10)];
    }
  }

  /** Parsing a zero-padded two-digit rendering gives the number back. */
  lemma ParseTwoDigits(n: int)
    requires 0 <= n <= 99
    ensures ParseInt32(PadLeft(IntToString(n), 2, '0')) == Some(n)
  {
    var a, b := DigitChar(n / 10), DigitChar(n % 10);
    ParsePair(a, b);
    assert DigitOf(a) * 10 + DigitOf(b) == n;
    TwoDigits(n);
  }

  /** Two digits parse to their decimal value. */
  lemma ParsePair(a: char, b: char)
    requires IsDigit(a) && IsDigit(b)
    ensures ParseInt32([a, b]) == Some(DigitOf(a) * 10 + DigitOf(b))
  {
    DigitsValueOfPair(a, b);
    ParseDigits([a, b]);
  }

  /** A non-empty string of digits whose value fits parses to that value. */
  lemma ParseDigits(s: string)
    requires s != [] && AllDigits(s) && DigitsValue(s) < TwoTo31
    ensures ParseInt32(s) == Some(DigitsValue(s))
  {
    TrimNoWhite(s);
    assert IsDigit(s[0]);
  }

  lemma DigitsValueOfPair(a: char, b: char)
    requires IsDigit(a) && IsDigit(b)
    ensures DigitsValue([a, b]) == DigitOf(a) * 10 + DigitOf(b)
  {
    assert [a, b][..1] == [a];
    assert [a][..0] == [];
    assert DigitsValue([a]) == DigitOf(a);
  }

  lemma {:induction false} SplitFromWord(w: string, rest: string, sep: char, cur: string)
    requires sep !in w && sep !in cur
    ensures SplitFrom(w + rest, sep, cur) == SplitFrom(rest, sep, cur + w)
    decreases |w|
  {
    if w == [] {
      assert w + rest == rest && cur + w == cur;
    } else {
      assert w[0] in w;
      assert (w + rest)[0] == w[0];
      assert (w + rest)[1..] == w[1..] + rest;
      SplitFromWord(w[1..], rest, sep, cur + [w[0]]);
      assert cur + [w[0]] + w[1..] == cur + w;
    }
  }

  /** Splitting non-empty separator-free words joined by the separator gives the words back. */
  lemma SplitTwo(a: string, b: string, sep: char)
    requires a != [] && b != [] && sep !in a && sep !in b
    ensures Split(a + [sep] + b, sep) == [a, b]
  {
    assert a + [sep] + b == a + ([sep] + b);
    SplitFromWord(a, [sep] + b, sep, []);
    assert [] + a == a;
    LastWord(b, sep, a);
  }

  lemma SplitThree(a: string, b: string, c: string, sep: char)
    requires a != [] && b != [] && c != [] && sep !in a && sep !in b && sep !in c
    ensures Split(a + [sep] + b + [sep] + c, sep) == [a, b, c]
  {
    var tail := [sep] + b + [sep] + c;
    assert a + [sep] + b + [sep] + c == a + tail;
    SplitFromWord(a, tail, sep, []);
    assert [] + a == a;
    assert tail[0] == sep && tail[1..] == b + ([sep] + c);
    SplitFromWord(b, [sep] + c, sep, []);
    assert [] + b == b;
    LastWord(c, sep, b);
  }

  /** After a finished word `prev`, a separator and a final word `w` give `[prev, w]`. */
  lemma LastWord(w: string, sep: char, prev: string)
    requires w != [] && prev != [] && sep !in w && sep !in prev
    ensures SplitFrom([sep] + w, sep, prev) == [prev, w]
  {
    assert ([sep] + w)[1..] == w + [];
    SplitFromWord(w, [], sep, []);
    assert [] + w == w;
  }

  // ---------------------------------------------------------------------------
  // What `Split` keeps of a string

  /** `string.Join(sep, ws)`: the words with one separator between neighbours. */
  function Join(ws: seq<string>, sep: char): string
  {
    if ws == [] then [] else if |ws| == 1 then ws[0] else ws[0] + [sep] + Join(ws[1..], sep)
  }

  /** The words `Split` can return: non-empty and free of the separator. */
  predicate Words(ws: seq<string>, sep: char)
  {
    forall i :: 0 <= i < |ws| ==> ws[i] != [] && sep !in ws[i]
  }

  predicate HasWordChar(s: string, sep: char)
  {
    exists i :: 0 <= i < |s| && s[i] != sep
  }

  /** `s` with every separator dropped that does not end a word followed by
      another word: leading, trailing and repeated separators go, every other
      character stays in place. `inWord` says whether a word was being read. */
  function Squeeze(s: string, sep: char, inWord: bool): string
    decreases |s|
  {
    if s == [] then []
    else if s[0] != sep then [s[0]] + Squeeze(s[1..], sep, true)
    else (if inWord && HasWordChar(s[1..], sep) then [sep] else []) + Squeeze(s[1..], sep, false)
  }

  /** `s` without its separators. */
  function WordChars(s: string, sep: char): string
    decreases |s|
  {
    if s == [] then [] else (if s[0] == sep then [] else [s[0]]) + WordChars(s[1..], sep)
  }

  /** Splitting the join of words gives the words back. */
  lemma {:induction false} SplitJoin(ws: seq<string>, sep: char)
    requires Words(ws, sep)
    ensures Split(Join(ws, sep), sep) == ws
  {
    if ws != [] {
      SplitFromJoin(ws, sep, []);
      assert [] + ws[0] == ws[0];
      assert [ws[0]] + ws[1..] == ws;
    }
  }

  lemma {:induction false} SplitFromJoin(ws: seq<string>, sep: char, cur: string)
    requires ws != [] && Words(ws, sep) && sep !in cur
    ensures SplitFrom(Join(ws, sep), sep, cur) == [cur + ws[0]] + ws[1..]
    decreases |ws|
  {
    if |ws| == 1 {
      SplitFromWord(ws[0], [], sep, cur);
      assert ws[0] + [] == ws[0];
    } else {
      var rest := Join(ws[1..], sep);
      assert Join(ws, sep) == ws[0] + ([sep] + rest);
      SplitFromWord(ws[0], [sep] + rest, sep, cur);
      assert ([sep] + rest)[1..] == rest;
      SplitFromJoin(ws[1..], sep, []);
      assert [] + ws[1..][0] == ws[1];
      assert [ws[1]] + ws[2..] == ws[1..];
    }
  }

  /** Joining what `Split` returns gives the string with its leading, trailing
      and repeated separators removed. */
  lemma JoinSplit(s: string, sep: char)
    ensures Join(Split(s, sep), sep) == Squeeze(s, sep, false)
  {
    JoinSplitFrom(s, sep, []);
  }

  lemma {:induction false} JoinSplitFrom(s: string, sep: char, cur: string)
    requires sep !in cur
    ensures Join(SplitFrom(s, sep, cur), sep) == cur + Squeeze(s, sep, cur != [])
    decreases |s|
  {
    if s == [] {
      assert cur + [] == cur;
    } else if s[0] != sep {
      JoinSplitFrom(s[1..], sep, cur + [s[0]]);
      assert cur + [s[0]] + Squeeze(s[1..], sep, true) == cur + ([s[0]] + Squeeze(s[1..], sep, true));
    } else {
      var r := SplitFrom(s[1..], sep, []);
      JoinSplitFrom(s[1..], sep, []);
      assert [] + Squeeze(s[1..], sep, false) == Squeeze(s[1..], sep, false);
      assert SplitFrom(s, sep, cur) == Segment(cur) + r;
      if cur != [] {
        SplitFromEmpty(s[1..], sep);
        JoinCons(cur, r, sep);
        var q := Squeeze(s[1..], sep, false);
        if r == [] {
          assert Squeeze(s, sep, true) == [] + q && q == [];
          assert cur + [] == cur;
        } else {
          assert Squeeze(s, sep, true) == [sep] + q;
        }
      } else {
        assert [] + r == r;
      }
    }
  }

  lemma JoinCons(w: string, ws: seq<string>, sep: char)
    ensures Join([w] + ws, sep) == w + (if ws == [] then [] else [sep] + Join(ws, sep))
  {
    assert ([w] + ws)[1..] == ws;
    if ws == [] {
      assert w + [] == w;
    } else {
      assert w + [sep] + Join(ws, sep) == w + ([sep] + Join(ws, sep));
    }
  }

  /** `Split` finds no word exactly when there is no character besides separators. */
  lemma {:induction false} SplitFromEmpty(s: string, sep: char)
    ensures SplitFrom(s, sep, []) == [] <==> !HasWordChar(s, sep)
    decreases |s|
  {
    if s != [] {
      if s[0] == sep {
        SplitFromEmpty(s[1..], sep);
        assert HasWordChar(s, sep) <==> HasWordChar(s[1..], sep) by {
          if HasWordChar(s[1..], sep) {
            var i :| 0 <= i < |s[1..]| && s[1..][i] != sep;
            assert s[i + 1] != sep;
          }
        }
      } else {
        assert HasWordChar(s, sep) by { assert s[0] != sep; }
        assert SplitFrom(s, sep, []) != [] by {
          assert [] + [s[0]] == [s[0]];
          SplitFromNonEmpty(s[1..], sep, [s[0]]);
        }
      }
    }
  }

  /** A segment already started is never lost. */
  lemma {:induction false} SplitFromNonEmpty(s: string, sep: char, cur: string)
    requires cur != [] && sep !in cur
    ensures SplitFrom(s, sep, cur) != []
    decreases |s|
  {
    if s != [] && s[0] != sep {
      SplitFromNonEmpty(s[1..], sep, cur + [s[0]]);
    }
  }

  /** The squeezed string splits into the same words as the original. */
  lemma SplitSqueeze(s: string, sep: char)
    ensures Split(Squeeze(s, sep, false), sep) == Split(s, sep)
  {
    JoinSplit(s, sep);
    SplitJoin(Split(s, sep), sep);
  }

  /** Squeezing drops separators only: the other characters stay, in order. */
  lemma {:induction false} SqueezeKeepsWordChars(s: string, sep: char, inWord: bool)
    ensures WordChars(Squeeze(s, sep, inWord), sep) == WordChars(s, sep)
    decreases |s|
  {
    if s != [] {
      SqueezeKeepsWordChars(s[1..], sep, s[0] != sep);
      var k := if s[0] != sep then [s[0]] else if inWord && HasWordChar(s[1..], sep) then [sep] else [];
      WordCharsAppend(k, Squeeze(s[1..], sep, s[0] != sep), sep);
    }
  }

  lemma {:induction false} WordCharsAppend(a: string, b: string, sep: char)
    ensures WordChars(a + b, sep) == WordChars(a, sep) + WordChars(b, sep)
    decreases |a|
  {
    if a == [] {
      assert a + b == b;
    } else {
      assert (a + b)[1..] == a[1..] + b;
      WordCharsAppend(a[1..], b, sep);
    }
  }
}
