/** The fixed character table `write` applies to the finished document:
    characters LaTeX's default fonts lack are replaced by commands. */
module Chars {
  import opened StringUtil

  datatype Substitution = Substitution(key: char, value: string)

  function Ensuremath(c: char): Substitution
  {
    Substitution(c, @"\ensuremath{" + [c] + "}")
  }

  function Circled(c: char, n: string): Substitution
  {
    Substitution(c, @"\circled{" + n + "}")
  }

  /** The table in the order `write` applies it. */
  const CharTable: seq<Substitution> := [
    Substitution('’', @"\textquoteright{}"),
    Ensuremath('⌈'), Ensuremath('⌉'), Ensuremath('⌊'), Ensuremath('⌋'), Ensuremath('↔'),
    Ensuremath('∅'), Ensuremath('∈'), Ensuremath('∑'), Ensuremath('≠'), Ensuremath('∩'),
    Ensuremath('≈'), Ensuremath('≡'), Ensuremath('≤'), Ensuremath('≥'), Ensuremath('⋅'),
    Circled('①', "1"), Circled('⑩', "10"), Circled('⑪', "11"), Circled('②', "2"),
    Circled('③', "3"), Circled('④', "4"), Circled('⑤', "5"), Circled('⑥', "6"),
    Circled('⑦', "7"), Circled('⑧', "8"), Circled('⑨', "9"),
    Substitution('ń', @"\'{n}"),
    Ensuremath('μ'), Ensuremath('π'), Ensuremath('ω')]

  /** `str.replace` with each entry of `t` in turn, the last entry
      applied last. */
  function ApplyTable(s: string, t: seq<Substitution>): string
  {
    if t == [] then s
    else Replace(ApplyTable(s, t[..|t| - 1]), [t[|t| - 1].key], t[|t| - 1].value)
  }

  /** What a character becomes: the value of the first entry for it, or
      the character itself. */
  function TranslateChar(c: char, t: seq<Substitution>): string
  {
    if t == [] then [c]
    else if t[0].key == c then t[0].value
    else TranslateChar(c, t[1..])
  }

  /** Every character replaced by what it becomes, all at once. */
  function Translate(s: string, t: seq<Substitution>): string
  {
    if s == [] then [] else TranslateChar(s[0], t) + Translate(s[1..], t)
  }

  /** No value holds the key of a later entry, so no replacement is
      replaced again. */
  predicate NoLaterKey(t: seq<Substitution>)
  {
    forall i, j :: 0 <= i < j < |t| ==> t[j].key !in t[i].value
  }

  /** The table, applied one entry after another, replaces each character
      exactly once and leaves every other character as it is. */
  lemma ApplyTableTranslates(s: string, t: seq<Substitution>)
    requires NoLaterKey(t)
    ensures ApplyTable(s, t) == Translate(s, t)
    decreases |s|
  {
    if s == [] {
      ApplyEmpty(t);
    } else {
      assert s == [s[0]] + s[1..];
      ApplyConcat([s[0]], s[1..], t);
      ApplyChar(s[0], t);
      ApplyTableTranslates(s[1..], t);
    }
  }

  lemma {:induction false} ApplyEmpty(t: seq<Substitution>)
    ensures ApplyTable([], t) == []
  {
    if t != [] {
      ApplyEmpty(t[..|t| - 1]);
    }
  }

  /** Applying the table distributes over concatenation, since every key
      is a single character. */
  lemma {:induction false} ApplyConcat(a: string, b: string, t: seq<Substitution>)
    ensures ApplyTable(a + b, t) == ApplyTable(a, t) + ApplyTable(b, t)
  {
    if t != [] {
      var init := t[..|t| - 1];
      ApplyConcat(a, b, init);
      ReplaceCharConcat(ApplyTable(a, init), ApplyTable(b, init), t[|t| - 1].key, t[|t| - 1].value);
    }
  }

  /** A single character becomes what `TranslateChar` says. */
  lemma {:induction false} ApplyChar(c: char, t: seq<Substitution>)
    requires NoLaterKey(t)
    ensures ApplyTable([c], t) == TranslateChar(c, t)
  {
    if t != [] {
      var init := t[..|t| - 1];
      var last := t[|t| - 1];
      assert NoLaterKey(init);
      ApplyChar(c, init);
      TranslatePrefix(c, t);
      TranslateIndex(c, init);
      if KeyIndex(c, init) < |init| {
        var i := KeyIndex(c, init);
        assert init[i] == t[i];
        assert last.key !in t[i].value;
        ReplaceAbsentChar(t[i].value, last.key, last.value);
      } else if last.key == c {
        assert Replace([c], [c], last.value) == last.value + Replace([], [c], last.value);
      } else {
        assert Replace([c], [last.key], last.value) == [c] + Replace([], [last.key], last.value);
      }
    }
  }

  /** Where the first entry for `c` is, or `|t|`. */
  function KeyIndex(c: char, t: seq<Substitution>): (r: nat)
    ensures r <= |t|
    ensures r < |t| ==> t[r].key == c
    ensures forall k :: 0 <= k < r ==> t[k].key != c
  {
    if t == [] then 0 else if t[0].key == c then 0 else 1 + KeyIndex(c, t[1..])
  }

  lemma {:induction false} TranslateIndex(c: char, t: seq<Substitution>)
    ensures TranslateChar(c, t) == if KeyIndex(c, t) < |t| then t[KeyIndex(c, t)].value else [c]
  {
    if t != [] && t[0].key != c {
      TranslateIndex(c, t[1..]);
    }
  }

  /** Adding an entry at the end only matters to a character no earlier
      entry has. */
  lemma TranslatePrefix(c: char, t: seq<Substitution>)
    requires t != []
    ensures var init := t[..|t| - 1];
      TranslateChar(c, t) == if KeyIndex(c, init) < |init| then TranslateChar(c, init)
        else if t[|t| - 1].key == c then t[|t| - 1].value else [c]
  {
    var init := t[..|t| - 1];
    TranslateIndex(c, t);
    TranslateIndex(c, init);
    KeyIndexPrefix(c, t);
  }

  lemma {:induction false} KeyIndexPrefix(c: char, t: seq<Substitution>)
    requires t != []
    ensures var init := t[..|t| - 1];
      KeyIndex(c, t) == if KeyIndex(c, init) < |init| then KeyIndex(c, init)
        else if t[|t| - 1].key == c then |init| else |t|
  {
    if |t| > 1 && t[0].key != c {
      assert t[1..][..|t[1..]| - 1] == t[..|t| - 1][1..];
      KeyIndexPrefix(c, t[1..]);
    }
  }

  /** A text without the character is not changed by replacing it. */
  lemma ReplaceAbsentChar(s: string, c: char, rep: string)
    requires c !in s
    ensures Replace(s, [c], rep) == s
  {
    forall p | 0 <= p <= |s|
      ensures !OccursAt(s, p, [c])
    {
      if p < |s| {
        assert s[p] in s;
      }
    }
    ReplaceAbsent(s, [c], rep);
  }

  /** The value's characters are ASCII, or the entry's own key. */
  predicate OwnCharsOnly(e: Substitution)
  {
    forall ch :: ch in e.value ==> ch as int < 128 || ch == e.key
  }

  lemma EnsuremathOwnChars(c: char)
    ensures OwnCharsOnly(Ensuremath(c))
  {
  }

  lemma CircledOwnChars(c: char, n: string)
    requires forall ch :: ch in n ==> IsDigit(ch)
    ensures OwnCharsOnly(Circled(c, n))
  {
  }

  /** The keys are distinct characters outside ASCII. */
  predicate DistinctWideKeys(t: seq<Substitution>)
  {
    (forall i :: 0 <= i < |t| ==> t[i].key as int >= 128)
    && forall i, j :: 0 <= i < j < |t| ==> t[i].key != t[j].key
  }

  /** Values holding only ASCII and their own key, under distinct keys
      outside ASCII, hold no later key. */
  lemma NoLaterKeyFromChars(t: seq<Substitution>)
    requires DistinctWideKeys(t)
    requires forall i :: 0 <= i < |t| ==> OwnCharsOnly(t[i])
    ensures NoLaterKey(t)
  {
    forall i, j | 0 <= i < j < |t|
      ensures t[j].key !in t[i].value
    {
      assert OwnCharsOnly(t[i]);
    }
  }

  /** Where a key stands in the table; -1 for any other character. */
  function KeyPosition(c: char): int
  {
    match c
    case '’' => 0 case '⌈' => 1 case '⌉' => 2 case '⌊' => 3 case '⌋' => 4 case '↔' => 5
    case '∅' => 6 case '∈' => 7 case '∑' => 8 case '≠' => 9 case '∩' => 10 case '≈' => 11
    case '≡' => 12 case '≤' => 13 case '≥' => 14 case '⋅' => 15 case '①' => 16 case '⑩' => 17
    case '⑪' => 18 case '②' => 19 case '③' => 20 case '④' => 21 case '⑤' => 22 case '⑥' => 23
    case '⑦' => 24 case '⑧' => 25 case '⑨' => 26 case 'ń' => 27 case 'μ' => 28 case 'π' => 29
    case 'ω' => 30 case _ => -1
  }

  lemma KeyPositionWide(c: char)
    ensures KeyPosition(c) >= 0 ==> c as int >= 128
  {
  }

  lemma KeyPositionsLow()
    ensures forall i :: 0 <= i < 16 ==> KeyPosition(CharTable[i].key) == i
  {
  }

  lemma KeyPositionsMid()
    ensures forall i :: 16 <= i < 24 ==> KeyPosition(CharTable[i].key) == i
  {
  }

  lemma KeyPositionsHigh()
    ensures forall i :: 24 <= i < |CharTable| ==> KeyPosition(CharTable[i].key) == i
  {
  }

  /** Each key's position in the table is where it stands: the keys are
      distinct. */
  lemma CharTableKeys()
    ensures DistinctWideKeys(CharTable)
  {
    KeyPositionsLow();
    KeyPositionsMid();
    KeyPositionsHigh();
    forall c: char
      ensures KeyPosition(c) >= 0 ==> c as int >= 128
    {
      KeyPositionWide(c);
    }
  }

  lemma EnsuremathEntries()
    ensures forall i :: 1 <= i < 16 || 28 <= i < |CharTable| ==> CharTable[i] == Ensuremath(CharTable[i].key)
  {
  }

  lemma CircledEntries()
    ensures forall i :: 16 <= i < 27 ==> OwnCharsOnly(CharTable[i])
  {
    forall i | 16 <= i < 27
      ensures OwnCharsOnly(CharTable[i])
    {
      var e := CharTable[i];
      CircledOwnChars(e.key, e.value[9..|e.value| - 1]);
    }
  }

  lemma CharTableNoLaterKey()
    ensures NoLaterKey(CharTable)
  {
    var t := CharTable;
    CharTableKeys();
    EnsuremathEntries();
    CircledEntries();
    forall i | 0 <= i < |t|
      ensures OwnCharsOnly(t[i])
    {
      if 16 <= i < 27 {
      } else if 1 <= i < 16 || 28 <= i {
        EnsuremathOwnChars(t[i].key);
      } else {
        assert t[i] in {Substitution('’', @"\textquoteright{}"), Substitution('ń', @"\'{n}")};
      }
    }
    NoLaterKeyFromChars(t);
  }

  /** `write`'s loop over the table. */
  method SubstituteCharacters(s: string) returns (r: string)
    ensures r == Translate(s, CharTable)
  {
    r := s;
    var k := 0;
    while k < |CharTable|
      invariant 0 <= k <= |CharTable|
      invariant r == ApplyTable(s, CharTable[..k])
    {
      assert CharTable[..k + 1][..k] == CharTable[..k];
      r := Replace(r, [CharTable[k].key], CharTable[k].value);
      k := k + 1;
    }
    assert CharTable[..|CharTable|] == CharTable;
    CharTableNoLaterKey();
    ApplyTableTranslates(s, CharTable);
  }
}
