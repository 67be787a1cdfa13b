/** The text-to-cell encoder `english_to_braille`.

    The encoder is a left fold over the text. Its state is the list of cells
    written so far and one flag, `numberMode`, that is on exactly while the
    previous character was a digit. The cells are joined into one string at
    the end.

    Characters are restricted to ASCII: there `str.isupper` holds for A..Z
    only, `str.isdigit` for 0..9 only, and `str.lower` maps A..Z to a..z and
    leaves every other character alone.
 */
module Encoder {
  import opened Alphabet
  import Classifier

  predicate IsAscii(c: char)
  {
    c as int < 128
  }

  predicate IsAsciiText(t: string)
  {
    forall i :: 0 <= i < |t| ==> IsAscii(t[i])
  }

  /** `c.isupper()` for an ASCII character. */
  predicate IsUpper(c: char)
  {
    'A' <= c <= 'Z'
  }

  /** `c.isdigit()` for an ASCII character. */
  predicate IsDigit(c: char)
  {
    '0' <= c <= '9'
  }

  /** `c.lower()` for an ASCII character. */
  function Lower(c: char): char
  {
    if IsUpper(c) then (c as int - 'A' as int + 'a' as int) as char else c
  }

  /** `ENGLISH_TO_BRAILLE.get(c, '......')` */
  function CellOrBlank(c: char): string
  {
    if c in EnglishToBraille then EnglishToBraille[c] else Blank
  }

  /** The table facts the encoder relies on for one character. */
  lemma CharFacts(c: char)
    ensures ' ' in EnglishToBraille && EnglishToBraille[' '] == Blank
    ensures IsDigit(c) ==> c in EnglishToBraille
    ensures IsUpper(c) ==> Lower(c) in EnglishToBraille
    ensures IsCell(CellOrBlank(c)) && IsCell(Capitalize) && IsCell(NumberSign)
    ensures CellOrBlank(c) != Capitalize && CellOrBlank(c) != NumberSign && Capitalize != NumberSign
  {
    TableDomain();
    CellsWellFormed();
    ControlCellsReserved();
  }

  /** The loop state: the cells appended so far and `number_mode`. */
  datatype State = State(braille: seq<string>, numberMode: bool)

  const Start: State := State([], false)

  /** One iteration of the loop over the text. */
  function Step(s: State, c: char): State
    requires IsAscii(c)
  {
    CharFacts(c);
    if IsUpper(c) then
      State(s.braille + [Capitalize, CellOrBlank(Lower(c))], false)
    else if IsDigit(c) then
      State(s.braille + (if s.numberMode then [] else [NumberSign]) + [EnglishToBraille[c]], true)
    else if c == ' ' then
      State(s.braille + [EnglishToBraille[' ']], false)
    else
      State(s.braille + [CellOrBlank(Lower(c))], false)
  }

  /** The number of upper-case characters of `t`. */
  function UpperCount(t: string): nat
  {
    if t == [] then 0
    else UpperCount(t[..|t| - 1]) + (if IsUpper(t[|t| - 1]) then 1 else 0)
  }

  /** A digit at `i` that opens a maximal run of digits. */
  predicate StartsDigitRun(t: string, i: int)
    requires 0 <= i < |t|
  {
    IsDigit(t[i]) && (i == 0 || !IsDigit(t[i - 1]))
  }

  /** The number of maximal runs of consecutive digits in `t`. */
  function DigitRuns(t: string): nat
  {
    if t == [] then 0
    else DigitRuns(t[..|t| - 1]) + (if StartsDigitRun(t, |t| - 1) then 1 else 0)
  }

  /** What one step adds: one cell, one more for a capital, one more for a
      digit that finds the mode flag off; the flag ends up on iff `c` is a
      digit; and every item stays a cell. */
  lemma StepShape(s: State, c: char)
    requires IsAscii(c)
    requires forall k :: 0 <= k < |s.braille| ==> IsCell(s.braille[k])
    ensures Step(s, c).numberMode <==> IsDigit(c)
    ensures |Step(s, c).braille| ==
      |s.braille| + 1 + (if IsUpper(c) then 1 else 0) + (if IsDigit(c) && !s.numberMode then 1 else 0)
    ensures forall k :: 0 <= k < |Step(s, c).braille| ==> IsCell(Step(s, c).braille[k])
  {
    CharFacts(c);
    CharFacts(Lower(c));
  }

  /** The loop run over all of `t`. */
  function Run(t: string): (s: State)
    requires IsAsciiText(t)
    ensures s.numberMode <==> |t| > 0 && IsDigit(t[|t| - 1])
    ensures |s.braille| == |t| + UpperCount(t) + DigitRuns(t)
    ensures forall k :: 0 <= k < |s.braille| ==> IsCell(s.braille[k])
    decreases |t|
  {
    if t == [] then Start
    else
      var c := t[|t| - 1];
      var p := Run(t[..|t| - 1]);
      StepShape(p, c);
      Step(p, c)
  }

  /** `''.join(cells)` */
  function Join(cells: seq<string>): string
  {
    if cells == [] then ""
    else Join(cells[..|cells| - 1]) + cells[|cells| - 1]
  }

  /** Joining cells gives six symbols per cell, all of them `O` or `.`. */
  lemma {:induction false} JoinCells(cells: seq<string>)
    requires forall k :: 0 <= k < |cells| ==> IsCell(cells[k])
    ensures |Join(cells)| == 6 * |cells|
    ensures Classifier.IsBraille(Join(cells))
    decreases |cells|
  {
    if cells != [] {
      var init := cells[..|cells| - 1];
      JoinCells(init);
      Classifier.IsBrailleConcat(Join(init), cells[|cells| - 1]);
    }
  }

  /** `english_to_braille`: the output has six symbols for every input
      character, every upper-case character and every maximal run of digits,
      and it is accepted by the classifier as a cell pattern. */
  function Encode(text: string): (r: string)
    requires IsAsciiText(text)
    ensures |r| == 6 * (|text| + UpperCount(text) + DigitRuns(text))
    ensures |r| % 6 == 0
    ensures Classifier.IsBraille(r)
  {
    JoinCells(Run(text).braille);
    Join(Run(text).braille)
  }

  /** The cells written for `t[i]`, read off the text around it instead of
      the mode flag: a capital is the capital sign and its lower-case letter's
      cell, a digit is its cell, preceded by the number sign when it opens a
      run, a table key is its cell, and anything else is the cell of space. */
  function CellsAt(t: string, i: int): seq<string>
    requires IsAsciiText(t) && 0 <= i < |t|
  {
    var c := t[i];
    CharFacts(c);
    if IsUpper(c) then [Capitalize, EnglishToBraille[Lower(c)]]
    else if IsDigit(c) then (if StartsDigitRun(t, i) then [NumberSign] else []) + [EnglishToBraille[c]]
    else if c in EnglishToBraille then [EnglishToBraille[c]]
    else [EnglishToBraille[' ']]
  }

  /** The cells written for `t[0]`, ..., `t[n - 1]`, one after another. */
  function CellsUpTo(t: string, n: int): seq<string>
    requires IsAsciiText(t) && 0 <= n <= |t|
  {
    if n == 0 then [] else CellsUpTo(t, n - 1) + CellsAt(t, n - 1)
  }

  /** One step appends the cells of the character it reads, given a mode
      flag that says whether the previous character was a digit. */
  lemma StepAppendsCellsAt(t: string, i: int, s: State)
    requires IsAsciiText(t) && 0 <= i < |t|
    requires s.numberMode <==> i > 0 && IsDigit(t[i - 1])
    ensures Step(s, t[i]).braille == s.braille + CellsAt(t, i)
  {
    var c := t[i];
    CharFacts(c);
    if IsUpper(c) {
      assert Lower(c) in EnglishToBraille;
    } else if IsDigit(c) {
      assert s.numberMode <==> !StartsDigitRun(t, i);
    } else if c == ' ' {
    } else {
      assert Lower(c) == c;
    }
  }

  /** The fold over a prefix writes exactly the cells of that prefix's characters. */
  lemma {:induction false} RunPrefix(t: string, n: int)
    requires IsAsciiText(t) && 0 <= n <= |t|
    ensures Run(t[..n]).braille == CellsUpTo(t, n)
    decreases n
  {
    if n > 0 {
      var p := t[..n];
      assert p[..n - 1] == t[..n - 1];
      assert p[n - 1] == t[n - 1];
      RunPrefix(t, n - 1);
      var s := Run(t[..n - 1]);
      assert s.numberMode <==> n - 1 > 0 && IsDigit(t[n - 2]);
      StepAppendsCellsAt(t, n - 1, s);
    }
  }

  /** The encoder writes, character by character, the cells `CellsAt`
      describes: the number sign right before the first digit of every run of
      digits and nowhere else, the capital sign before every capital letter. */
  lemma {:induction false} EncodeByCharacter(t: string)
    requires IsAsciiText(t)
    ensures Run(t).braille == CellsUpTo(t, |t|)
    ensures Encode(t) == Join(CellsUpTo(t, |t|))
  {
    RunPrefix(t, |t|);
    assert t[..|t|] == t;
  }

  /** How often `x` occurs in a concatenation. */
  lemma MultisetAppend<T>(a: seq<T>, b: seq<T>, x: T)
    ensures multiset(a + b)[x] == multiset(a)[x] + multiset(b)[x]
  {
  }

  /** How often `x` occurs in a one- or two-element sequence. */
  lemma MultisetShort<T>(y: T, z: T, x: T)
    ensures multiset([y])[x] == (if y == x then 1 else 0)
    ensures multiset([y, z])[x] == (if y == x then 1 else 0) + (if z == x then 1 else 0)
  {
    assert multiset([y, z]) == multiset([y]) + multiset([z]) by {
      assert [y, z] == [y] + [z];
    }
  }

  /** The cells one step appends, given the mode flag it finds. */
  function Added(numberMode: bool, c: char): seq<string>
    requires IsAscii(c)
  {
    CharFacts(c);
    if IsUpper(c) then [Capitalize, CellOrBlank(Lower(c))]
    else if IsDigit(c) then (if numberMode then [] else [NumberSign]) + [EnglishToBraille[c]]
    else if c == ' ' then [EnglishToBraille[' ']]
    else [CellOrBlank(Lower(c))]
  }

  /** A step only appends: what it appends is `Added`. */
  lemma StepAdded(s: State, c: char)
    requires IsAscii(c)
    ensures Step(s, c).braille == s.braille + Added(s.numberMode, c)
  {
  }

  /** The control cells among one step's cells. */
  lemma AddedControlCells(numberMode: bool, c: char)
    requires IsAscii(c)
    ensures multiset(Added(numberMode, c))[Capitalize] == (if IsUpper(c) then 1 else 0)
    ensures multiset(Added(numberMode, c))[NumberSign] == (if IsDigit(c) && !numberMode then 1 else 0)
  {
    CharFacts(c);
    CharFacts(Lower(c));
    if IsUpper(c) {
      MultisetShort(Capitalize, CellOrBlank(Lower(c)), Capitalize);
      MultisetShort(Capitalize, CellOrBlank(Lower(c)), NumberSign);
    } else if IsDigit(c) && !numberMode {
      assert Added(numberMode, c) == [NumberSign, CellOrBlank(c)];
      MultisetShort(NumberSign, CellOrBlank(c), Capitalize);
      MultisetShort(NumberSign, CellOrBlank(c), NumberSign);
    } else {
      var x := if IsDigit(c) then EnglishToBraille[c] else if c == ' ' then EnglishToBraille[' '] else CellOrBlank(Lower(c));
      assert x != Capitalize && x != NumberSign;
      assert Added(numberMode, c) == [x];
      MultisetShort(x, x, Capitalize);
      MultisetShort(x, x, NumberSign);
    }
  }

  /** One step adds the capital sign once for a capital letter and the
      number sign once when a run of digits opens, and neither otherwise. */
  lemma StepControlCells(s: State, c: char)
    requires IsAscii(c)
    ensures multiset(Step(s, c).braille)[Capitalize] == multiset(s.braille)[Capitalize] + (if IsUpper(c) then 1 else 0)
    ensures multiset(Step(s, c).braille)[NumberSign] == multiset(s.braille)[NumberSign] + (if IsDigit(c) && !s.numberMode then 1 else 0)
  {
    StepAdded(s, c);
    AddedControlCells(s.numberMode, c);
    MultisetAppend(s.braille, Added(s.numberMode, c), Capitalize);
    MultisetAppend(s.braille, Added(s.numberMode, c), NumberSign);
  }

  /** The capital sign is written once per upper-case character and the
      number sign once per maximal run of digits: neither is ever the cell
      of a character. */
  lemma {:induction false} ControlCellCounts(t: string)
    requires IsAsciiText(t)
    ensures multiset(Run(t).braille)[Capitalize] == UpperCount(t)
    ensures multiset(Run(t).braille)[NumberSign] == DigitRuns(t)
    decreases |t|
  {
    if t != [] {
      var init := t[..|t| - 1];
      var c := t[|t| - 1];
      var p := Run(init);
      ControlCellCounts(init);
      assert Run(t) == Step(p, c);
      assert p.numberMode <==> |init| > 0 && IsDigit(t[|t| - 2]);
      assert StartsDigitRun(t, |t| - 1) <==> IsDigit(c) && !p.numberMode;
      StepControlCells(p, c);
    }
  }

  /** The fold only depends on the state reached: texts that leave the same
      state encode every continuation alike. */
  lemma {:induction false} RunExtend(a: string, b: string, v: string)
    requires IsAsciiText(a) && IsAsciiText(b) && IsAsciiText(v)
    requires Run(a) == Run(b)
    ensures IsAsciiText(a + v) && IsAsciiText(b + v)
    ensures Run(a + v) == Run(b + v)
    decreases |v|
  {
    assert IsAsciiText(a + v) && IsAsciiText(b + v) by {
      forall i | 0 <= i < |a + v| ensures IsAscii((a + v)[i]) {
        if i >= |a| { assert (a + v)[i] == v[i - |a|]; }
      }
      forall i | 0 <= i < |b + v| ensures IsAscii((b + v)[i]) {
        if i >= |b| { assert (b + v)[i] == v[i - |b|]; }
      }
    }
    if v == [] {
      assert a + v == a && b + v == b;
    } else {
      var v' := v[..|v| - 1];
      assert (a + v)[..|a + v| - 1] == a + v';
      assert (b + v)[..|b + v| - 1] == b + v';
      RunExtend(a, b, v');
    }
  }

  /** A character whose lower-case form has no table entry encodes exactly
      as a space: replacing it by a space changes nothing in the output. */
  lemma UnknownEncodesAsSpace(u: string, c: char, v: string)
    requires IsAsciiText(u) && IsAsciiText(v) && IsAscii(c)
    requires Lower(c) !in EnglishToBraille
    ensures IsAsciiText(u + [c] + v) && IsAsciiText(u + [' '] + v)
    ensures Encode(u + [c] + v) == Encode(u + [' '] + v)
  {
    CharFacts(c);
    var a := u + [c];
    var b := u + [' '];
    assert a[..|a| - 1] == u && b[..|b| - 1] == u;
    assert IsAsciiText(a) && IsAsciiText(b);
    assert Run(a) == Run(b);
    RunExtend(a, b, v);
  }

  /** `''.join(cells)`, run imperatively. */
  method JoinText(cells: seq<string>) returns (out: string)
    requires forall k :: 0 <= k < |cells| ==> IsCell(cells[k])
    ensures out == Join(cells)
    ensures |out| == 6 * |cells|
  {
    out := "";
    for k := 0 to |cells|
      invariant out == Join(cells[..k])
    {
      assert cells[..k + 1][..k] == cells[..k];
      out := out + cells[k];
    }
    assert cells[..|cells|] == cells;
    JoinCells(cells);
  }

  /** The body of the loop of `english_to_braille` for one character. */
  method EncodeChar(braille: seq<string>, numberMode: bool, c: char)
    returns (braille': seq<string>, numberMode': bool)
    requires IsAscii(c)
    ensures State(braille', numberMode') == Step(State(braille, numberMode), c)
  {
    CharFacts(c);
    braille', numberMode' := braille, numberMode;
    if IsUpper(c) {
      braille' := braille' + [Capitalize];
      braille' := braille' + [CellOrBlank(Lower(c))];
      numberMode' := false;
      assert braille' == braille + [Capitalize, CellOrBlank(Lower(c))];
    } else if IsDigit(c) {
      if !numberMode' {
        braille' := braille' + [NumberSign];
        numberMode' := true;
      }
      braille' := braille' + [EnglishToBraille[c]];
    } else if c == ' ' {
      braille' := braille' + [EnglishToBraille[' ']];
      numberMode' := false;
    } else {
      braille' := braille' + [CellOrBlank(Lower(c))];
      numberMode' := false;
    }
  }

  /** The loop of `english_to_braille`, run imperatively. */
  method EncodeText(text: string) returns (out: string)
    requires IsAsciiText(text)
    ensures out == Encode(text)
  {
    var braille: seq<string> := [];
    var numberMode := false;
    for i := 0 to |text|
      invariant State(braille, numberMode) == Run(text[..i])
    {
      assert text[..i + 1][..i] == text[..i];
      braille, numberMode := EncodeChar(braille, numberMode, text[i]);
    }
    assert text[..|text|] == text;
    out := JoinText(braille);
  }
}
