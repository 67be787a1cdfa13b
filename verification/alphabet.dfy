/** The static tables of the translator: the text-to-cell alphabet, the two
    control cells, the letter-to-digit mapping and the derived cell-to-text
    inverse.

    A cell is a string of six symbols, `O` for a raised dot and `.` for a flat
    one. The alphabet is written as one dict display whose pairs fall into
    three groups (letters, digits, space and punctuation); the groups are kept
    as separate sequences here and concatenated in their insertion order.
 */
module Alphabet {
  import Dict

  /** The symbols a cell is written with: `O` for a raised dot, `.` for a flat one. */
  predicate IsCellSymbol(c: char)
  {
    c == 'O' || c == '.'
  }

  /** Exactly six cell symbols. */
  predicate IsCell(s: string)
  {
    |s| == 6 && forall k :: 0 <= k < 6 ==> IsCellSymbol(s[k])
  }

  const Letters: seq<(char, string)> := [
    ('a', "O....."), ('b', "O.O..."), ('c', "OO...."), ('d', "OO.O.."), ('e', "O..O.."),
    ('f', "OOO..."), ('g', "OOOO.."), ('h', "O.OO.."), ('i', ".OO..."), ('j', ".OOO.."),
    ('k', "O...O."), ('l', "O.O.O."), ('m', "OO..O."), ('n', "OO.OO."), ('o', "O..OO."),
    ('p', "OOO.O."), ('q', "OOOOO."), ('r', "O.OOO."), ('s', ".OO.O."), ('t', ".OOOO."),
    ('u', "O...OO"), ('v', "O.O.OO"), ('w', ".OOO.O"), ('x', "OO..OO"), ('y', "OO.OOO"), ('z', "O..OOO")
  ]

  const Digits: seq<(char, string)> := [
    ('0', ".OOOOO"), ('1', "O....."), ('2', "O.O..."), ('3', "OO...."), ('4', "OO.O.."), ('5', "O..O.."),
    ('6', "OOO..."), ('7', "OOOO.."), ('8', "O.OO.."), ('9', ".OO...")
  ]

  const Symbols: seq<(char, string)> := [
    (' ', "......"),
    (',', "..O..."), (';', "..OO.."), (':', "...O.."), ('.', "...OO."), ('!', "...OO."), ('?', "..O.O.")
  ]

  /** The pairs of the alphabet display, in insertion order. */
  const Items: seq<(char, string)> := Letters + Digits + Symbols

  /** ENGLISH_TO_BRAILLE */
  const EnglishToBraille: map<char, string> := Dict.FromItems(Items)

  /** Control cells: the next letter is upper case / the following cells are digits. */
  const Capitalize: string := ".....O"
  const NumberSign: string := "....OO"

  /** The default cell the encoder uses for a character whose lower-case form
      has no table entry. */
  const Blank: string := "......"

  /** NUM_MAPPING: the letters a..j stand for the digits 1..9, 0. */
  const NumMapping: map<char, char> := map[
    'a' := '1', 'b' := '2', 'c' := '3', 'd' := '4', 'e' := '5', 'f' := '6',
    'g' := '7', 'h' := '8', 'i' := '9', 'j' := '0'
  ]

  /** BRAILLE_TO_ENGLISH, the comprehension `{v: k for k, v in ENGLISH_TO_BRAILLE.items()}`.
      It is built from the display's pair list rather than from the dict's
      `items()`: the two are the same sequence because no key of the display
      occurs twice (`ItemsDistinctKeys`), so the dict keeps every pair in
      insertion order. */
  const BrailleToEnglish: map<string, char> := Dict.Invert(Items)

  /** The characters the alphabet has an entry for. */
  predicate IsTableKey(c: char)
  {
    'a' <= c <= 'z' || '0' <= c <= '9' || c in " ,;:.!?"
  }

  /** Where a table key was inserted into the alphabet display. */
  function Position(c: char): int
  {
    if 'a' <= c <= 'z' then c as int - 'a' as int
    else if '0' <= c <= '9' then 26 + (c as int - '0' as int)
    else if c == ' ' then 36
    else if c == ',' then 37
    else if c == ';' then 38
    else if c == ':' then 39
    else if c == '.' then 40
    else if c == '!' then 41
    else 42
  }

  /** The digit whose cell a letter among a..i shares: a -> 1, ..., i -> 9. */
  function DigitTwin(c: char): char
    requires 'a' <= c <= 'i'
  {
    (c as int - 'a' as int + '1' as int) as char
  }

  /** The pairs of distinct keys whose cells coincide. */
  predicate AreAliases(a: char, b: char)
  {
    || ('a' <= a <= 'i' && b == DigitTwin(a))
    || ('a' <= b <= 'i' && a == DigitTwin(b))
    || (a == '.' && b == '!')
    || (a == '!' && b == '.')
  }

  /** The character a key's cell decodes to through the inverse table: a
      shared cell goes to the key inserted later. */
  function Resolved(c: char): char
  {
    if 'a' <= c <= 'i' then DigitTwin(c)
    else if c == '.' then '!'
    else c
  }

  /** Every pair of the display is a table key, inserted at `Position`. */
  lemma ItemsIndexed()
    ensures |Items| == 43
    ensures forall i :: 0 <= i < |Items| ==> IsTableKey(Items[i].0) && Position(Items[i].0) == i
  {
  }

  /** Every table key has a pair, the one at its `Position`. */
  lemma KeysIndexed()
    ensures forall c :: IsTableKey(c) ==> 0 <= Position(c) < |Items| && Items[Position(c)].0 == c
  {
    forall c | IsTableKey(c) ensures 0 <= Position(c) < |Items| && Items[Position(c)].0 == c {
      if 'a' <= c <= 'z' {
        assert Items[Position(c)] == Letters[Position(c)];
      } else if '0' <= c <= '9' {
        assert Items[Position(c)] == Digits[Position(c) - 26];
      } else {
        assert Items[Position(c)] == Symbols[Position(c) - 36];
      }
    }
  }

  lemma ItemsDistinctKeys()
    ensures Dict.DistinctKeys(Items)
  {
    ItemsIndexed();
  }

  /** A table key maps to the cell of its own pair. */
  lemma Lookup(c: char)
    requires IsTableKey(c)
    ensures c in EnglishToBraille
    ensures EnglishToBraille[c] == Items[Position(c)].1
  {
    KeysIndexed();
    ItemsDistinctKeys();
    Dict.FromItemsDistinct(Items, Position(c));
  }

  /** The alphabet covers a..z, 0..9, space and , ; : . ! ? and nothing else. */
  lemma TableDomain()
    ensures forall c :: c in EnglishToBraille <==> IsTableKey(c)
  {
    ItemsIndexed();
    forall c | IsTableKey(c) ensures c in EnglishToBraille {
      Lookup(c);
    }
  }

  lemma ItemCellsWellFormed()
    ensures forall i :: 0 <= i < |Items| ==> IsCell(Items[i].1)
  {
  }

  /** Every table value, both control cells and the default are cells. */
  lemma CellsWellFormed()
    ensures forall c :: c in EnglishToBraille ==> IsCell(EnglishToBraille[c])
    ensures IsCell(Capitalize) && IsCell(NumberSign) && IsCell(Blank)
  {
    TableDomain();
    ItemCellsWellFormed();
    forall c | c in EnglishToBraille ensures IsCell(EnglishToBraille[c]) {
      Lookup(c);
    }
  }

  lemma ItemCellsNotControl()
    ensures forall i :: 0 <= i < |Items| ==> Items[i].1 != Capitalize && Items[i].1 != NumberSign
  {
  }

  /** The control cells differ from each other and from every table value;
      the default cell is the cell of the space. */
  lemma ControlCellsReserved()
    ensures Capitalize != NumberSign
    ensures forall c :: c in EnglishToBraille ==>
      EnglishToBraille[c] != Capitalize && EnglishToBraille[c] != NumberSign
    ensures ' ' in EnglishToBraille && EnglishToBraille[' '] == Blank
  {
    TableDomain();
    ItemsIndexed();
    ItemCellsNotControl();
    forall c | c in EnglishToBraille
      ensures EnglishToBraille[c] != Capitalize && EnglishToBraille[c] != NumberSign
    {
      Lookup(c);
    }
    Lookup(' ');
  }

  lemma LettersCellsDistinct()
    ensures forall i, j :: 0 <= i < j < |Letters| ==> Letters[i].1 != Letters[j].1
  {
  }

  lemma LettersDigitsCellsUpToJ()
    ensures forall i, j :: 0 <= i < 10 && 0 <= j < |Digits| ==>
      (Letters[i].1 == Digits[j].1 <==> i + 1 == j)
  {
  }

  lemma LettersDigitsCellsFromK()
    ensures forall i, j :: 10 <= i < |Letters| && 0 <= j < |Digits| ==> Letters[i].1 != Digits[j].1
  {
  }

  lemma LettersDigitsCells()
    ensures forall i, j :: 0 <= i < |Letters| && 0 <= j < |Digits| ==>
      (Letters[i].1 == Digits[j].1 <==> i + 1 == j)
  {
    LettersDigitsCellsUpToJ();
    LettersDigitsCellsFromK();
  }

  lemma LettersSymbolsCells()
    ensures forall i, j :: 0 <= i < |Letters| && 0 <= j < |Symbols| ==> Letters[i].1 != Symbols[j].1
  {
  }

  lemma DigitsCellsDistinct()
    ensures forall i, j :: 0 <= i < j < |Digits| ==> Digits[i].1 != Digits[j].1
  {
  }

  lemma DigitsSymbolsCells()
    ensures forall i, j :: 0 <= i < |Digits| && 0 <= j < |Symbols| ==> Digits[i].1 != Symbols[j].1
  {
  }

  lemma SymbolsCells()
    ensures forall i, j :: 0 <= i < j < |Symbols| ==> (Symbols[i].1 == Symbols[j].1 <==> i == 4 && j == 5)
  {
  }

  /** The index pairs `i < j` of the display whose cells coincide. */
  predicate SharedPositions(i: int, j: int)
  {
    (i < 9 && j == i + 27) || (i == 40 && j == 41)
  }

  /** Two pairs of the display share a cell exactly when they are a letter
      among a..i and its digit, or `.` and `!`. */
  lemma SharedItemCells()
    ensures forall i, j :: 0 <= i < j < |Items| ==> (Items[i].1 == Items[j].1 <==> SharedPositions(i, j))
  {
    LettersCellsDistinct();
    LettersDigitsCells();
    LettersSymbolsCells();
    DigitsCellsDistinct();
    DigitsSymbolsCells();
    SymbolsCells();
    forall i, j | 0 <= i < j < |Items|
      ensures Items[i].1 == Items[j].1 <==> SharedPositions(i, j)
    {
      if i < 26 {
        assert Items[i] == Letters[i];
        if j < 26 {
          assert Items[j] == Letters[j];
        } else if j < 36 {
          assert Items[j] == Digits[j - 26];
        } else {
          assert Items[j] == Symbols[j - 36];
        }
      } else if i < 36 {
        assert Items[i] == Digits[i - 26];
        if j < 36 {
          assert Items[j] == Digits[j - 26];
        } else {
          assert Items[j] == Symbols[j - 36];
        }
      } else {
        assert Items[i] == Symbols[i - 36];
        assert Items[j] == Symbols[j - 36];
      }
    }
  }

  /** Aliases, stated on characters, are the shared positions of the display. */
  lemma AliasPositions(a: char, b: char)
    requires IsTableKey(a) && IsTableKey(b) && a != b
    ensures Position(a) != Position(b)
    ensures AreAliases(a, b) <==> SharedPositions(Position(a), Position(b)) || SharedPositions(Position(b), Position(a))
  {
  }

  /** Two distinct keys share a cell exactly when they are aliases. */
  lemma SharedCell(a: char, b: char)
    requires a in EnglishToBraille && b in EnglishToBraille && a != b
    ensures EnglishToBraille[a] == EnglishToBraille[b] <==> AreAliases(a, b)
  {
    TableDomain();
    Lookup(a);
    Lookup(b);
    ItemsIndexed();
    SharedItemCells();
    AliasPositions(a, b);
  }

  /** Distinct keys share a cell exactly when they are aliases; in
      particular `0` does not share the cell of `j`. */
  lemma SharedCells()
    ensures forall a, b :: a in EnglishToBraille && b in EnglishToBraille && a != b ==>
      (EnglishToBraille[a] == EnglishToBraille[b] <==> AreAliases(a, b))
    ensures '0' in EnglishToBraille && 'j' in EnglishToBraille && EnglishToBraille['0'] != EnglishToBraille['j']
  {
    forall a, b | a in EnglishToBraille && b in EnglishToBraille && a != b
      ensures EnglishToBraille[a] == EnglishToBraille[b] <==> AreAliases(a, b)
    {
      SharedCell(a, b);
    }
    TableDomain();
    SharedCell('0', 'j');
  }

  /** The inverse table has exactly the table's cells as keys. */
  lemma InverseDomain()
    ensures BrailleToEnglish.Keys == EnglishToBraille.Values
  {
    ItemsDistinctKeys();
    Dict.FromItemsValues(Items);
  }

  /** Looking up the character a cell decodes to gives back that cell. */
  lemma InverseRoundTrip()
    ensures forall x :: x in BrailleToEnglish ==>
      BrailleToEnglish[x] in EnglishToBraille && EnglishToBraille[BrailleToEnglish[x]] == x
  {
    ItemsDistinctKeys();
    Dict.InvertRoundTrip(Items);
  }

  /** A table key sits at its `Position`. */
  lemma KeyAt(c: char)
    requires IsTableKey(c)
    ensures 0 <= Position(c) < |Items| && Items[Position(c)].0 == c
  {
    KeysIndexed();
  }

  /** The last position of the display carrying the same cell as position `p`. */
  function LastSharing(p: int): int
  {
    if p < 9 then p + 27 else if p == 40 then 41 else p
  }

  lemma LastSharingCell(p: int)
    requires 0 <= p < |Items|
    ensures p <= LastSharing(p) < |Items|
    ensures Items[LastSharing(p)].1 == Items[p].1
    ensures forall j :: LastSharing(p) < j < |Items| ==> Items[j].1 != Items[LastSharing(p)].1
  {
    SharedItemCells();
    var q := LastSharing(p);
    if q != p {
      assert SharedPositions(p, q);
    }
    forall j | q < j < |Items| ensures Items[j].1 != Items[q].1 {
      assert !SharedPositions(q, j);
    }
  }

  lemma ResolvedPosition(c: char)
    requires IsTableKey(c)
    ensures IsTableKey(Resolved(c))
    ensures Position(Resolved(c)) == LastSharing(Position(c))
  {
  }

  /** The cell of key `c` decodes to `Resolved(c)`. */
  lemma ResolvedKey(c: char)
    requires IsTableKey(c)
    ensures c in EnglishToBraille
    ensures EnglishToBraille[c] in BrailleToEnglish
    ensures BrailleToEnglish[EnglishToBraille[c]] == Resolved(c)
  {
    Lookup(c);
    LastSharingCell(Position(c));
    ResolvedPosition(c);
    KeyAt(Resolved(c));
    Dict.InvertLastWins(Items, LastSharing(Position(c)));
  }

  /** The cell of every key decodes to the key itself, except that a cell
      shared by two keys decodes to the later one: the digit rather than the
      letter, `!` rather than `.`. */
  lemma InverseResolution()
    ensures forall c :: c in EnglishToBraille ==>
      EnglishToBraille[c] in BrailleToEnglish && BrailleToEnglish[EnglishToBraille[c]] == Resolved(c)
    ensures "O....." in BrailleToEnglish && BrailleToEnglish["O....."] == '1'
    ensures "...OO." in BrailleToEnglish && BrailleToEnglish["...OO."] == '!'
  {
    TableDomain();
    forall c | c in EnglishToBraille
      ensures EnglishToBraille[c] in BrailleToEnglish && BrailleToEnglish[EnglishToBraille[c]] == Resolved(c)
    {
      ResolvedKey(c);
    }
    ResolvedKey('a');
    Lookup('a');
    ResolvedKey('.');
    Lookup('.');
  }

  lemma NumMappingEntry(c: char)
    requires 'a' <= c <= 'j'
    ensures c in NumMapping
    ensures NumMapping[c] == if c == 'j' then '0' else DigitTwin(c)
  {
  }

  /** NUM_MAPPING covers a..j; its digit shares the letter's cell for a..i
      but not for j, whose digit 0 has a cell of its own. */
  lemma NumMappingAgainstTable()
    ensures forall c :: c in NumMapping <==> 'a' <= c <= 'j'
    ensures forall c :: c in NumMapping ==>
      c in EnglishToBraille && NumMapping[c] in EnglishToBraille &&
      (EnglishToBraille[NumMapping[c]] == EnglishToBraille[c] <==> c != 'j')
  {
    forall c | c in NumMapping
      ensures c in EnglishToBraille && NumMapping[c] in EnglishToBraille &&
        (EnglishToBraille[NumMapping[c]] == EnglishToBraille[c] <==> c != 'j')
    {
      NumMappingEntry(c);
      Lookup(c);
      Lookup(NumMapping[c]);
      SharedCell(NumMapping[c], c);
    }
  }

  /** Which digit NUM_MAPPING gives: on a..i it is the character the
      letter's cell reads back as through BRAILLE_TO_ENGLISH (1..9); on j it
      is 0, while j's own cell reads back as j. */
  lemma NumMappingAgainstInverse()
    ensures forall c :: 'a' <= c <= 'i' ==>
      c in NumMapping && c in EnglishToBraille && EnglishToBraille[c] in BrailleToEnglish &&
      NumMapping[c] == BrailleToEnglish[EnglishToBraille[c]]
    ensures 'j' in NumMapping && 'j' in EnglishToBraille && EnglishToBraille['j'] in BrailleToEnglish &&
      NumMapping['j'] == '0' && BrailleToEnglish[EnglishToBraille['j']] == 'j'
  {
    forall c | 'a' <= c <= 'i'
      ensures c in NumMapping && c in EnglishToBraille && EnglishToBraille[c] in BrailleToEnglish &&
        NumMapping[c] == BrailleToEnglish[EnglishToBraille[c]]
    {
      NumMappingEntry(c);
      ResolvedKey(c);
    }
    NumMappingEntry('j');
    ResolvedKey('j');
  }
}
