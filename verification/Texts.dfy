/** Texts joined by bars, cut apart again; decimal numbers, read again. */
module Texts {
  import opened Common
  import opened Hex

  const BAR: Text := ['|' as int]

  predicate NoBar(t: Text) {
    forall i :: 0 <= i < |t| ==> t[i] != '|' as int
  }

  // ------------------------------------------------------------------ cutting

  /** The parts when one more byte comes in front. */
  function Prepend(c: Byte, parts: seq<Text>): (more: seq<Text>)
    requires parts != []
    ensures more != []
  {
    if c == '|' as int then [[]] + parts else [[c] + parts[0]] + parts[1..]
  }

  /** The texts between the bars of `t`; always at least one. */
  function Cut(t: Text): (parts: seq<Text>)
    ensures parts != []
  {
    if t == [] then [[]]
    else Prepend(t[0], Cut(t[1..]))
  }

  /** The inverse: bars between the texts. */
  function Paste(parts: seq<Text>): Text
    requires parts != []
  {
    if |parts| == 1 then parts[0] else parts[0] + BAR + Paste(parts[1..])
  }

  lemma {:induction false} PasteOfCut(t: Text)
    ensures Paste(Cut(t)) == t
  {
    if t != [] {
      var rest := Cut(t[1..]);
      PasteOfCut(t[1..]);
      assert t == [t[0]] + t[1..];
      if t[0] == '|' as int {
        assert Cut(t)[1..] == rest;
      } else {
        assert Cut(t)[1..] == rest[1..];
      }
    }
  }

  /** A text and its parts determine each other. */
  lemma CutEqualIff(s: Text, t: Text)
    ensures Cut(s) == Cut(t) <==> s == t
  {
    PasteOfCut(s);
    PasteOfCut(t);
  }

  /** No bar is left in any part. */
  lemma {:induction false} PartsHaveNoBar(t: Text)
    ensures forall i :: 0 <= i < |Cut(t)| ==> NoBar(Cut(t)[i])
  {
    if t != [] {
      PartsHaveNoBar(t[1..]);
      assert NoBar([]);
      assert NoBar(Cut(t[1..])[0]);
    }
  }

  lemma {:induction false} CutWhole(t: Text)
    requires NoBar(t)
    ensures Cut(t) == [t]
  {
    if t != [] {
      forall i | 0 <= i < |t[1..]| ensures t[1..][i] != '|' as int {
        assert t[1..][i] == t[i + 1];
      }
      CutWhole(t[1..]);
      assert [t[0]] + t[1..] == t;
    }
  }

  lemma CutStep(c: Byte, t: Text)
    ensures Cut([c] + t) == Prepend(c, Cut(t))
  {
    assert ([c] + t)[1..] == t;
  }

  lemma PrependInFront(c: Byte, xs: seq<Text>, ys: seq<Text>)
    requires xs != []
    ensures Prepend(c, xs + ys) == Prepend(c, xs) + ys
  {
    assert (xs + ys)[1..] == xs[1..] + ys;
  }

  /** A bar separates the parts on its left from those on its right. */
  lemma {:induction false} CutAtBar(s: Text, t: Text)
    ensures Cut(s + BAR + t) == Cut(s) + Cut(t)
  {
    hide Cut, Prepend;
    if s == [] {
      CutOfNothing();
      CutStep('|' as int, t);
      PrependBar(Cut(t));
      assert s + BAR + t == ['|' as int] + t;
    } else {
      var c, rest := s[0], s[1..];
      CutAtBar(rest, t);
      CutStep(c, rest);
      CutStep(c, rest + BAR + t);
      PrependInFront(c, Cut(rest), Cut(t));
      assert s == [c] + rest;
      assert s + BAR + t == [c] + (rest + BAR + t);
    }
  }

  lemma CutOfNothing()
    ensures Cut([]) == [[]]
  {
  }

  lemma PrependBar(parts: seq<Text>)
    requires parts != []
    ensures Prepend('|' as int, parts) == [[]] + parts
  {
  }

  lemma HexHasNoBar(b: Bytes)
    ensures NoBar(ToHex(b)) && NoBar(HEX_PREFIX + ToHex(b))
  {
    hide ToHex, NibbleOf;
    ToHexDigits(b);
    BarIsNoDigit();
  }

  lemma BarIsNoDigit()
    ensures NibbleOf('|' as int).None?
  {
  }

  // ----------------------------------------------------------------- decimals

  /** `std::to_string`. */
  function Decimal(n: nat): Text {
    if n < 10 then ['0' as int + n] else Decimal(n / 10) + ['0' as int + n % 10]
  }

  predicate AllDecimal(t: Text) {
    forall i :: 0 <= i < |t| ==> '0' as int <= t[i] <= '9' as int
  }

  function ReadDecimal(t: Text): nat
    requires AllDecimal(t)
  {
    if t == [] then 0 else ReadDecimal(t[..|t| - 1]) * 10 + (t[|t| - 1] - '0' as int)
  }

  /** Digits without a leading zero. */
  predicate Canonical(t: Text) {
    t != [] && AllDecimal(t) && (|t| > 1 ==> t[0] != '0' as int)
  }

  lemma {:induction false} DecimalReadsBack(n: nat)
    ensures Canonical(Decimal(n)) && ReadDecimal(Decimal(n)) == n
    ensures n > 0 ==> Decimal(n)[0] != '0' as int
  {
    if n < 10 {
      assert Decimal(n)[..0] == [];
    } else {
      DecimalReadsBack(n / 10);
      assert Decimal(n)[..|Decimal(n)| - 1] == Decimal(n / 10);
    }
  }

  /** A number's text is the one canonical text that reads as the number. */
  lemma {:induction false} DecimalIff(t: Text, n: nat)
    ensures t == Decimal(n) <==> Canonical(t) && ReadDecimal(t) == n
  {
    DecimalReadsBack(n);
    if Canonical(t) && ReadDecimal(t) == n {
      var init, last := t[..|t| - 1], t[|t| - 1] - '0' as int;
      if |t| == 1 {
        assert init == [];
      } else {
        assert init[0] == t[0];
        DecimalIff(init, ReadDecimal(init));
        NotZero(init);
        assert n / 10 == ReadDecimal(init) && n % 10 == last;
        assert t == init + [t[|t| - 1]];
      }
    }
  }

  lemma {:induction false} NotZero(t: Text)
    requires t != [] && AllDecimal(t) && t[0] != '0' as int
    ensures ReadDecimal(t) > 0
  {
    if |t| > 1 {
      assert t[..|t| - 1][0] == t[0];
      NotZero(t[..|t| - 1]);
    } else {
      assert t[..0] == [];
    }
  }

  lemma DecimalHasNoBar(n: nat)
    ensures NoBar(Decimal(n))
  {
    DecimalReadsBack(n);
  }
}
