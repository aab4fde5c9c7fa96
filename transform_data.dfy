/** The CSV cell rewriter: an ordered table of literal (old, new) rules is
    applied to every cell of every row, each rule to the previous rule's
    output. Reading and writing the CSV file is not modelled: the document is
    the list of rows the reader yields, and the result is the list of rows
    handed to the writer, in order. */
module TransformData {
  import opened StrReplace

  /** One entry of the replacement table: `key` is the text looked for,
      `value` the text put in its place. */
  datatype Rule = Rule(key: string, value: string)

  /** Every key is non-empty, as in the table below. */
  predicate WellFormed(rules: seq<Rule>) {
    forall i :: 0 <= i < |rules| ==> |rules[i].key| > 0
  }

  /** The value one cell ends with: the rules in table order, each applied
      (with `str.replace`) to the text the previous one produced. */
  function ApplyRules(cell: string, rules: seq<Rule>): string
    requires WellFormed(rules)
    decreases |rules|
  {
    if rules == [] then cell
    else ApplyRules(ReplaceAll(cell, rules[0].key, rules[0].value), rules[1..])
  }

  /** The replacement table, in declaration order. "Red Ink" is the colour
      of "Women basics" and "Green Ink" that of "Men basics". */
  const Replacements: seq<Rule> := [
    Rule("America", "Malaysia"),
    Rule("Europe", "Singapore"),
    Rule("1010US", "1010MY"),
    Rule("1020US", "1020MY"),
    Rule("1040DE", "1040SG"),
    Rule("/2020", "/2025"),
    Rule("Women type T simple white", "White Ink"),
    Rule("Women type T simple black", "Black Ink"),
    Rule("Women crop top black", "Blue Ink"),
    Rule("Women basics", "Red Ink"),
    Rule("Men basics", "Green Ink"),
    Rule("Men type T simple white", "Purple Ink"),
    Rule("Laptop bag black", "Grey Ink"),
    Rule("Men dress shirt black", "Yellow Ink"),
    Rule("Men dress shirt grey", "Violet Ink"),
    Rule("Men shorts grey", "Brown Ink"),
    Rule("Men shorts black", "Orange Ink"),
    Rule("Unisex tank top white", "White Ink"),
    Rule("Laptop bag red", "Emerald Ink"),
    Rule("Smartphone case diamond", "Sky Blue Ink"),
    Rule("Smartphone case simple", "Silver Ink"),
    Rule("Men type T simple black", "Gold Ink"),
    Rule(" GmbH", "")
  ]

  /** The rewriting loop over the document: one output row per input row, in
      input order; each output row has one cell per input cell, in the same
      position, holding that cell with every rule applied in table order. */
  method TransformRows(rows: seq<seq<string>>, rules: seq<Rule>) returns (written: seq<seq<string>>)
    requires WellFormed(rules)
    ensures |written| == |rows|
    ensures forall i :: 0 <= i < |rows| ==> |written[i]| == |rows[i]|
    ensures forall i, j :: 0 <= i < |rows| && 0 <= j < |rows[i]| ==>
              written[i][j] == ApplyRules(rows[i][j], rules)
  {
    written := [];
    var r := 0;
    while r < |rows|
      invariant 0 <= r <= |rows|
      invariant |written| == r
      invariant forall i :: 0 <= i < r ==> |written[i]| == |rows[i]|
      invariant forall i, j :: 0 <= i < r && 0 <= j < |rows[i]| ==>
                  written[i][j] == ApplyRules(rows[i][j], rules)
    {
      var row := rows[r];
      var transformedRow: seq<string> := [];
      var c := 0;
      while c < |row|
        invariant 0 <= c <= |row|
        invariant |transformedRow| == c
        invariant forall j :: 0 <= j < c ==> transformedRow[j] == ApplyRules(row[j], rules)
      {
        var cell := row[c];
        var k := 0;
        while k < |rules|
          invariant 0 <= k <= |rules|
          invariant ApplyRules(cell, rules[k..]) == ApplyRules(row[c], rules)
        {
          assert rules[k..][1..] == rules[k + 1..];
          cell := ReplaceAll(cell, rules[k].key, rules[k].value);
          k := k + 1;
        }
        transformedRow := transformedRow + [cell];
        c := c + 1;
      }
      written := written + [transformedRow];
      r := r + 1;
    }
  }

  /** Applying `first ++ second` is applying `first`, then `second` to its
      result: each rule sees only the text earlier rules left behind. */
  lemma {:induction false} ApplyRulesChain(cell: string, first: seq<Rule>, second: seq<Rule>)
    requires WellFormed(first) && WellFormed(second)
    ensures WellFormed(first + second)
    ensures ApplyRules(cell, first + second) == ApplyRules(ApplyRules(cell, first), second)
    decreases |first|
  {
    if first != [] {
      assert (first + second)[0] == first[0];
      assert (first + second)[1..] == first[1..] + second;
      ApplyRulesChain(ReplaceAll(cell, first[0].key, first[0].value), first[1..], second);
    } else {
      assert first + second == second;
    }
  }

  /** A rule whose key does not occur in the cell is a no-op. */
  lemma SkipAbsentRule(cell: string, rules: seq<Rule>)
    requires WellFormed(rules) && |rules| > 0
    requires !OccursIn(rules[0].key, cell)
    ensures ApplyRules(cell, rules) == ApplyRules(cell, rules[1..])
  {
    ReplaceAbsentKey(cell, rules[0].key, rules[0].value);
  }

  /** A cell in which no key occurs, before or after any rule, is left as it
      is; with no rules at all every cell is unchanged. */
  lemma {:induction false} NoKeyOccursIsIdentity(cell: string, rules: seq<Rule>)
    requires WellFormed(rules)
    requires forall r :: r in rules ==> !OccursIn(r.key, cell)
    ensures ApplyRules(cell, rules) == cell
    decreases |rules|
  {
    if rules != [] {
      assert rules[0] in rules;
      ReplaceAbsentKey(cell, rules[0].key, rules[0].value);
      assert forall r :: r in rules[1..] ==> r in rules;
      NoKeyOccursIsIdentity(cell, rules[1..]);
    }
  }

  /** Chained rules depend on their order: ("A","B") then ("B","C") turns
      "A" into "C", while the reverse order leaves "B". */
  lemma RuleOrderMatters()
    ensures ApplyRules("A", [Rule("A", "B"), Rule("B", "C")]) == "C"
    ensures ApplyRules("A", [Rule("B", "C"), Rule("A", "B")]) == "B"
  {
    assert ReplaceAll("A", "A", "B") == "B" by { ReplaceAtOccurrence("A", "", "B"); }
    assert ReplaceAll("B", "B", "C") == "C" by { ReplaceAtOccurrence("B", "", "C"); }
    assert ReplaceAll("A", "B", "C") == "A" by { assert !StartsWith("A", "B"); }
  }

  /** The `" GmbH" -> ""` rule shortens a cell by five characters per
      occurrence. */
  lemma GmbHRuleShortens(cell: string)
    ensures |ReplaceAll(cell, " GmbH", "")| == |cell| - 5 * Count(cell, " GmbH")
  {
    ReplaceAllLength(cell, " GmbH", "");
  }

  /** The table's keys are all non-empty, so the table may be applied. */
  lemma ReplacementsWellFormed()
    ensures WellFormed(Replacements)
  {
  }

  /** A cheap sufficient test that `key` does not occur in `cell`: it is
      longer, or its first or last character is missing from the cell. */
  predicate CannotOccur(key: string, cell: string)
    requires |key| > 0
  {
    |key| > |cell| || key[0] !in cell || key[|key| - 1] !in cell
  }

  lemma CannotOccurIsSound(key: string, cell: string)
    requires |key| > 0 && CannotOccur(key, cell)
    ensures !OccursIn(key, cell)
  {
    if |key| > |cell| {
      LongerKeyIsAbsent(key, cell);
    } else if key[0] !in cell {
      MissingCharMeansAbsent(key, cell, 0);
    } else {
      MissingCharMeansAbsent(key, cell, |key| - 1);
    }
  }

  /** Rules `lo` to `hi - 1` cannot touch `cell`. */
  predicate NoneOccurBetween(cell: string, rules: seq<Rule>, lo: nat, hi: nat)
    requires hi <= |rules|
  {
    forall k :: lo <= k < hi ==> |rules[k].key| > 0 && CannotOccur(rules[k].key, cell)
  }

  /** No key of rules `lo` to `hi - 1` occurs in `cell`. */
  predicate KeysAbsentBetween(cell: string, rules: seq<Rule>, lo: nat, hi: nat)
    requires hi <= |rules|
  {
    forall k :: lo <= k < hi ==> !OccursIn(rules[k].key, cell)
  }

  /** The cheap test is sound: rules that pass it have absent keys. */
  lemma NoneOccurBetweenMeansAbsent(cell: string, rules: seq<Rule>, lo: nat, hi: nat)
    requires hi <= |rules| && NoneOccurBetween(cell, rules, lo, hi)
    ensures KeysAbsentBetween(cell, rules, lo, hi)
  {
    forall k | lo <= k < hi ensures !OccursIn(rules[k].key, cell) {
      CannotOccurIsSound(rules[k].key, cell);
    }
  }

  /** A run of rules none of whose keys occurs in the cell leaves it as it is. */
  lemma {:induction false} KeysAbsentIsIdentity(cell: string, rules: seq<Rule>, lo: nat, hi: nat)
    requires WellFormed(rules) && lo <= hi <= |rules|
    requires KeysAbsentBetween(cell, rules, lo, hi)
    ensures ApplyRules(cell, rules[lo..hi]) == cell
    decreases hi - lo
  {
    if lo < hi {
      var rs := rules[lo..hi];
      assert rs[0] == rules[lo] && rs[1..] == rules[lo + 1..hi];
      ReplaceAbsentKey(cell, rules[lo].key, rules[lo].value);
      KeysAbsentIsIdentity(cell, rules, lo + 1, hi);
    }
  }

  lemma NoneOccurBetweenJoin(cell: string, rules: seq<Rule>, lo: nat, mid: nat, hi: nat)
    requires lo <= mid <= hi <= |rules|
    requires NoneOccurBetween(cell, rules, lo, mid) && NoneOccurBetween(cell, rules, mid, hi)
    ensures NoneOccurBetween(cell, rules, lo, hi)
  {
  }

  /** A cell equal to the key of rule `h`, where no earlier key occurs in the
      cell and no later key in that rule's value, ends as that value. */
  lemma WholeCellHit(cell: string, rules: seq<Rule>, h: nat)
    requires WellFormed(rules) && h < |rules| && cell == rules[h].key
    requires KeysAbsentBetween(cell, rules, 0, h)
    requires KeysAbsentBetween(rules[h].value, rules, h + 1, |rules|)
    ensures ApplyRules(cell, rules) == rules[h].value
  {
    var value := rules[h].value;
    assert rules[h] in rules;
    assert rules == rules[0..h] + rules[h..|rules|];
    ApplyRulesChain(cell, rules[0..h], rules[h..|rules|]);
    KeysAbsentIsIdentity(cell, rules, 0, h);
    ReplaceAtOccurrence(cell, [], value);
    assert cell + [] == cell;
    assert ReplaceAll(cell, cell, value) == value;
    assert rules[h..|rules|][1..] == rules[h + 1..|rules|];
    KeysAbsentIsIdentity(value, rules, h + 1, |rules|);
  }

  // The facts about the table that each example below needs are proved as
  // separate small lemmas, a few rules at a time, so that no single proof
  // has the solver evaluate the whole table on a literal.

  lemma MalaysiaUntouchedByEarlyRules()
    ensures Replacements[0] == Rule("America", "Malaysia")
    ensures NoneOccurBetween("Malaysia", Replacements, 1, 6)
  {
  }

  lemma MalaysiaUntouchedByMiddleRules()
    ensures NoneOccurBetween("Malaysia", Replacements, 6, 12)
  {
  }

  lemma MalaysiaUntouchedByLateRules()
    ensures NoneOccurBetween("Malaysia", Replacements, 12, |Replacements|)
  {
  }

  /** "America" becomes "Malaysia". */
  lemma AmericaExample()
    ensures ApplyRules("America", Replacements) == "Malaysia"
  {
    var cell := "America";
    MalaysiaUntouchedByEarlyRules();
    MalaysiaUntouchedByMiddleRules();
    MalaysiaUntouchedByLateRules();
    NoneOccurBetweenJoin("Malaysia", Replacements, 1, 6, 12);
    NoneOccurBetweenJoin("Malaysia", Replacements, 1, 12, |Replacements|);
    NoneOccurBetweenMeansAbsent("Malaysia", Replacements, 1, |Replacements|);
    WholeCellHit(cell, Replacements, 0);
  }

  lemma LowerCaseAmericaUntouchedByEarlyRules()
    ensures NoneOccurBetween("america", Replacements, 0, 12)
  {
  }

  lemma LowerCaseAmericaUntouchedByLateRules()
    ensures NoneOccurBetween("america", Replacements, 12, |Replacements|)
  {
  }

  /** Matching is case-sensitive: "america" is left alone. */
  lemma LowerCaseExample()
    ensures ApplyRules("america", Replacements) == "america"
  {
    var cell := "america";
    LowerCaseAmericaUntouchedByEarlyRules();
    LowerCaseAmericaUntouchedByLateRules();
    NoneOccurBetweenMeansAbsent(cell, Replacements, 0, |Replacements|);
    KeysAbsentIsIdentity(cell, Replacements, 0, |Replacements|);
    assert Replacements[0..|Replacements|] == Replacements;
  }

  lemma PlantCodeRulesApart()
    ensures Replacements[2] == Rule("1010US", "1010MY")
    ensures NoneOccurBetween("1010US", Replacements, 0, 2)
  {
  }

  lemma NewPlantCodeUntouchedByLaterRules()
    ensures NoneOccurBetween("1010MY", Replacements, 3, |Replacements|)
  {
  }

  /** A plant code: "1010US" becomes "1010MY". */
  lemma PlantCodeExample()
    ensures ApplyRules("1010US", Replacements) == "1010MY"
  {
    var cell := "1010US";
    PlantCodeRulesApart();
    NewPlantCodeUntouchedByLaterRules();
    NoneOccurBetweenMeansAbsent(cell, Replacements, 0, 2);
    NoneOccurBetweenMeansAbsent("1010MY", Replacements, 3, |Replacements|);
    WholeCellHit(cell, Replacements, 2);
  }

  lemma MenBasicsRulesApart()
    ensures Replacements[10] == Rule("Men basics", "Green Ink")
    ensures NoneOccurBetween("Men basics", Replacements, 5, 10)
  {
  }

  lemma MenBasicsUntouchedByLocationRules()
    ensures NoneOccurBetween("Men basics", Replacements, 0, 5)
  {
  }

  lemma GreenInkUntouchedByLaterRules()
    ensures NoneOccurBetween("Green Ink", Replacements, 11, |Replacements|)
  {
  }

  /** "Men basics" has its own rule and becomes "Green Ink". */
  lemma MenBasicsExample()
    ensures ApplyRules("Men basics", Replacements) == "Green Ink"
  {
    var cell := "Men basics";
    MenBasicsRulesApart();
    GreenInkUntouchedByLaterRules();
    MenBasicsUntouchedByLocationRules();
    NoneOccurBetweenJoin(cell, Replacements, 0, 5, 10);
    NoneOccurBetweenMeansAbsent(cell, Replacements, 0, 10);
    NoneOccurBetweenMeansAbsent("Green Ink", Replacements, 11, |Replacements|);
    WholeCellHit(cell, Replacements, 10);
  }

  lemma WomenBasicsRulesApart()
    ensures Replacements[9] == Rule("Women basics", "Red Ink")
    ensures NoneOccurBetween("Women basics", Replacements, 6, 9)
  {
  }

  lemma WomenBasicsUntouchedByLocationRules()
    ensures NoneOccurBetween("Women basics", Replacements, 0, 3)
  {
  }

  lemma WomenBasicsUntouchedByCodeRules()
    ensures NoneOccurBetween("Women basics", Replacements, 3, 6)
  {
  }

  lemma RedInkUntouchedByLaterRules()
    ensures NoneOccurBetween("Red Ink", Replacements, 10, |Replacements|)
  {
  }

  /** "Women basics" becomes "Red Ink". It holds "men basics" only in lower
      case, which the "Men basics" rule does not match. */
  lemma WomenBasicsExample()
    ensures ApplyRules("Women basics", Replacements) == "Red Ink"
    ensures !OccursIn(Replacements[10].key, "Women basics")
  {
    var cell := "Women basics";
    MenBasicsRulesApart();
    CannotOccurIsSound(Replacements[10].key, cell);
    WomenBasicsRulesApart();
    WomenBasicsUntouchedByLocationRules();
    WomenBasicsUntouchedByCodeRules();
    NoneOccurBetweenJoin("Women basics", Replacements, 0, 3, 6);
    NoneOccurBetweenJoin("Women basics", Replacements, 0, 6, 9);
    RedInkUntouchedByLaterRules();
    NoneOccurBetweenMeansAbsent(cell, Replacements, 0, 9);
    NoneOccurBetweenMeansAbsent("Red Ink", Replacements, 10, |Replacements|);
    WholeCellHit(cell, Replacements, 9);
  }
}
