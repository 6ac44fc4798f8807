/** Excel column names: `column` in edrg.py turns a name such as "A", "R" or
    "DU" into its 1-based column number. The numbering is bijective base 26:
    'a' is 1, 'z' is 26, and there is no zero digit. */
module Columns {
  import opened Results
  import opened Text

  /** The `alphabet` string of `column`. */
  const Alphabet: string := "abcdefghijklmnopqrstuvwxyz"

  /** `alphabet.index(c)` in `column`: the 0-based position of a lower-case
      letter, or ValueError for any other character. */
  function AlphabetIndex(c: char): (r: Result<nat>)
    ensures r.Ok? <==> IsLower(c)
    ensures r.Ok? ==> r.value < 26 && Digit(c) == r.value + 1
    ensures r.Err? ==> r.error == ValueError
  {
    if IsLower(c) then Ok(c as int - 'a' as int) else Err(ValueError)
  }

  /** AlphabetIndex is `str.index` on the alphabet string: it finds the first
      occurrence of `c`, and fails exactly when `c` does not occur. */
  lemma AlphabetIndexIsIndex(c: char)
    ensures AlphabetIndex(c).Ok? <==> c in Alphabet
    ensures AlphabetIndex(c).Ok? ==>
              AlphabetIndex(c).value < |Alphabet| && Alphabet[AlphabetIndex(c).value] == c
              && c !in Alphabet[..AlphabetIndex(c).value]
  {
    AlphabetIsAsciiLower();
    FoundInLetterRange(Alphabet, c);
  }

  lemma AlphabetIsAsciiLower()
    ensures |Alphabet| == 26
    ensures forall i :: 0 <= i < 26 ==> Alphabet[i] as int == 'a' as int + i
  {
  }

  lemma FoundInLetterRange(s: string, c: char)
    requires |s| == 26
    requires forall i :: 0 <= i < 26 ==> s[i] as int == 'a' as int + i
    ensures c in s <==> IsLower(c)
    ensures IsLower(c) ==> s[c as int - 'a' as int] == c && c !in s[..c as int - 'a' as int]
  {
    if IsLower(c) {
      assert s[c as int - 'a' as int] == c;
    }
  }

  function Pow26(e: nat): (p: nat)
    ensures p >= 1
  {
    if e == 0 then 1 else 26 * Pow26(e - 1)
  }

  /** The digit value of a lower-case letter: 'a' is 1, ..., 'z' is 26. */
  function Digit(c: char): (d: nat)
    requires IsLower(c)
    ensures 1 <= d <= 26
  {
    c as int - 'a' as int + 1
  }

  /** Reference meaning of a column name: bijective base 26, most significant
      letter first. */
  function Value(s: string): (v: nat)
    requires AllLower(s)
    ensures v == 0 <==> s == []
    decreases |s|
  {
    if s == [] then 0 else 26 * Value(s[..|s| - 1]) + Digit(s[|s| - 1])
  }

  /** `column(colname, exponent)`. The name is lower-cased, its last letter is
      looked up in the alphabet, weighted by 26^exponent, and added to the
      column of the remaining prefix taken with the next exponent. */
  function Column(colname: string, exponent: nat): (r: Result<nat>)
    ensures r.Err? ==> r.error == ValueError
    ensures r.Ok? && |colname| > 0 ==> r.value >= Pow26(exponent)
    decreases |colname|
  {
    if |colname| == 0 then Ok(0)
    else
      var name := LowerStr(colname);
      match AlphabetIndex(name[|name| - 1])
      case Err(e) => Err(e)
      case Ok(i) =>
        match Column(name[..|name| - 1], exponent + 1)
        case Err(e) => Err(e)
        case Ok(rest) => Ok((1 + i) * Pow26(exponent) + rest)
  }

  /** What `column` computes: it succeeds exactly on names made only of ASCII
      letters, and then yields 26^exponent times the bijective base-26 value of
      the lower-cased name. */
  lemma {:induction false} ColumnMeaning(colname: string, exponent: nat)
    decreases |colname|
    ensures Column(colname, exponent).Ok? <==> AllLetters(colname)
    ensures Column(colname, exponent).Err? ==> Column(colname, exponent).error == ValueError
    ensures Column(colname, exponent).Ok? ==>
              AllLower(LowerStr(colname)) && Column(colname, exponent).value == Pow26(exponent) * Value(LowerStr(colname))
  {
    if |colname| > 0 {
      var name := LowerStr(colname);
      var n := |colname|;
      LastLetterSplit(colname);
      ColumnMeaning(name[..n - 1], exponent + 1);
      if IsLower(name[n - 1]) && AllLetters(name[..n - 1]) {
        var rest := Column(name[..n - 1], exponent + 1).value;
        ColumnStepValue(colname, exponent, rest);
      }
    }
  }

  /** A name is all letters exactly when its lower-cased last character is a
      lower-case letter and its lower-cased prefix is all letters. */
  lemma LastLetterSplit(colname: string)
    requires |colname| > 0
    ensures AllLetters(colname)
            <==> IsLower(LowerStr(colname)[|colname| - 1]) && AllLetters(LowerStr(colname)[..|colname| - 1])
  {
    var name := LowerStr(colname);
    var n := |colname|;
    LettersIffLowered(colname);
    assert AllLetters(name[..n - 1]) <==> AllLower(name[..n - 1]);
  }

  /** The arithmetic of one step of `column`, kept out of its body. */
  lemma ColumnStepValue(colname: string, exponent: nat, rest: nat)
    requires |colname| > 0 && AllLetters(colname)
    requires AllLower(LowerStr(colname)[..|colname| - 1])
    requires rest == Pow26(exponent + 1) * Value(LowerStr(LowerStr(colname)[..|colname| - 1]))
    ensures AllLower(LowerStr(colname))
    ensures Digit(LowerStr(colname)[|colname| - 1]) * Pow26(exponent) + rest
            == Pow26(exponent) * Value(LowerStr(colname))
  {
    var name := LowerStr(colname);
    var init := name[..|name| - 1];
    LettersIffLowered(colname);
    LowerStrOfLower(init);
    assert Pow26(exponent + 1) == 26 * Pow26(exponent);
    assert Value(name) == 26 * Value(init) + Digit(name[|name| - 1]);
    Distribute(Pow26(exponent), Value(init), Digit(name[|name| - 1]));
  }

  lemma Distribute(p: int, v: int, d: int)
    ensures d * p + (26 * p) * v == p * (26 * v + d)
  {
  }

  /** The empty name is column 0, and every non-empty name made of letters is
      column 1 or more. */
  lemma ColumnPositive(colname: string)
    requires AllLetters(colname)
    ensures Column(colname, 0).Ok?
    ensures Column(colname, 0).value == 0 <==> colname == []
  {
    ColumnMeaning(colname, 0);
  }

  /** Step law: appending a letter multiplies the prefix's column by 26 and adds
      the letter's digit. */
  lemma ColumnStep(s: string, c: char)
    requires AllLetters(s) && IsLetter(c)
    ensures Column(s, 0).Ok?
    ensures Column(s + [c], 0) == Ok(Digit(Lower(c)) + 26 * Column(s, 0).value)
  {
    ColumnOfLetters(s);
    ColumnSnoc(s, c);
  }

  lemma ColumnSnoc(s: string, c: char)
    requires AllLetters(s) && IsLetter(c)
    ensures AllLower(LowerStr(s))
    ensures Column(s + [c], 0) == Ok(26 * Value(LowerStr(s)) + Digit(Lower(c)))
  {
    LettersSnoc(s, c);
    LettersIffLowered(s);
    ColumnOfLetters(s + [c]);
    LowerStrSnoc(s, c);
    ValueSnoc(LowerStr(s), Lower(c));
  }

  /** `column` of a letter name is the reference value of its lower-cased form. */
  lemma ColumnOfLetters(colname: string)
    requires AllLetters(colname)
    ensures AllLower(LowerStr(colname))
    ensures Column(colname, 0) == Ok(Value(LowerStr(colname)))
  {
    ColumnMeaning(colname, 0);
  }

  lemma LettersSnoc(s: string, c: char)
    requires AllLetters(s) && IsLetter(c)
    ensures AllLetters(s + [c])
  {
  }

  lemma LowerStrSnoc(s: string, c: char)
    ensures LowerStr(s + [c]) == LowerStr(s) + [Lower(c)]
  {
  }

  lemma ValueSnoc(s: string, c: char)
    requires AllLower(s) && IsLower(c)
    ensures AllLower(s + [c])
    ensures Value(s + [c]) == 26 * Value(s) + Digit(c)
  {
    assert (s + [c])[..|s|] == s;
  }

  /** Accumulator law: starting at exponent e scales the result by 26^e, and
      fails on the same names. */
  lemma ColumnAccumulator(colname: string, exponent: nat)
    ensures Column(colname, exponent).Ok? == Column(colname, 0).Ok?
    ensures Column(colname, exponent).Ok? ==>
              Column(colname, exponent).value == Pow26(exponent) * Column(colname, 0).value
  {
    ColumnMeaning(colname, exponent);
    ColumnMeaning(colname, 0);
  }

  /** Case does not matter: names that lower-case alike give the same result. */
  lemma ColumnCaseInsensitive(s: string, t: string, exponent: nat)
    requires LowerStr(s) == LowerStr(t)
    ensures Column(s, exponent) == Column(t, exponent)
  {
    assert |s| == |t|;
  }

  /** The name of a column number: the inverse of `column`, in lower case. */
  function Name(n: nat): (s: string)
    ensures AllLower(s)
    ensures s == [] <==> n == 0
    decreases n
  {
    if n == 0 then [] else Name((n - 1) / 26) + [('a' as int + (n - 1) % 26) as char]
  }

  lemma {:induction false} ValueOfName(n: nat)
    ensures Value(Name(n)) == n
    decreases n
  {
    if n > 0 {
      ValueOfName((n - 1) / 26);
      var s := Name(n);
      assert s[..|s| - 1] == Name((n - 1) / 26);
    }
  }

  lemma {:induction false} NameOfValue(s: string)
    requires AllLower(s)
    ensures Name(Value(s)) == s
    decreases |s|
  {
    if s != [] {
      var init := s[..|s| - 1];
      var d := Digit(s[|s| - 1]);
      NameOfValue(init);
      var v := Value(s);
      assert v - 1 == 26 * Value(init) + (d - 1);
      assert (v - 1) / 26 == Value(init);
      assert (v - 1) % 26 == d - 1;
      assert s == init + [s[|s| - 1]];
    }
  }

  /** Every column number has a name: `column` maps names onto all of the
      naturals. */
  lemma ColumnOfName(n: nat)
    ensures Column(Name(n), 0) == Ok(n)
  {
    ColumnOfLower(Name(n));
    ValueOfName(n);
  }

  /** On a name already in lower case, `column` is the reference value. */
  lemma ColumnOfLower(s: string)
    requires AllLower(s)
    ensures Column(s, 0) == Ok(Value(s))
  {
    assert AllLetters(s);
    ColumnMeaning(s, 0);
    LowerStrOfLower(s);
  }

  /** `column` is injective: two names with the same column are the same name
      once lower-cased. */
  lemma ColumnInjective(s: string, t: string)
    requires Column(s, 0).Ok? && Column(s, 0) == Column(t, 0)
    ensures LowerStr(s) == LowerStr(t)
  {
    ColumnMeaning(s, 0);
    ColumnMeaning(t, 0);
    ColumnOfLetters(s);
    ColumnOfLetters(t);
    ValueInjective(LowerStr(s), LowerStr(t));
  }

  lemma ValueInjective(s: string, t: string)
    requires AllLower(s) && AllLower(t) && Value(s) == Value(t)
    ensures s == t
  {
    NameOfValue(s);
    NameOfValue(t);
  }

  /** The first column the system import reads: 'R', like 'r', is column 18. */
  lemma FirstSystemColumn()
    ensures Column("R", 0) == Ok(18)
    ensures Column("r", 0) == Ok(18)
  {
    ColumnStep([], 'R');
    assert [] + ['R'] == "R";
    ColumnStep([], 'r');
    assert [] + ['r'] == "r";
  }

  /** The last column the system import reads: 'DU' is column 125. */
  lemma LastSystemColumn()
    ensures Column("DU", 0) == Ok(125)
  {
    ColumnStep([], 'D');
    assert [] + ['D'] == "D";
    ColumnStep("D", 'U');
    assert "D" + ['U'] == "DU";
  }
}
