/** The numbers the dashboard reads out of a parsed sheet (the arithmetic of
    `updateStats` and `renderMemberDashboards` in app.js, without the HTML).
    The sheet has a fixed layout: member rows first, three summary cells in
    column AG below them, and a deposit/due block further down. Every missing
    row, missing cell or non-numeric cell reads as 0. */
module Ledger {
  import opened Options
  import opened Text
  import opened Seqs
  import Csv

  /** Reads the text of a cell as a number (`parseFloat`), or `None` when the
      text is not a number. The caller supplies it. */
  type NumberParser = string -> Option<real>

  type Rows = seq<seq<string>>

  // The spreadsheet layout. Rows count from the first data row (the row
  // below the header), columns from column A, both from 0.

  /** The member rows are rows 0 to 5. */
  const MemberSlots: nat := 6
  const NameColumn: nat := 0
  /** Column AG: a member's meals, and the summary cells below the members. */
  const MealsColumn: nat := 32
  /** Column AH: a member's maid bill. */
  const MaidColumn: nat := 33
  /** Column AI: a member's extra expenses. */
  const ExtraColumn: nat := 34
  /** Cells AG8, AG9 and AG10 of the sheet. */
  const TotalMealsRow: nat := 6
  const TotalBazarRow: nat := 7
  const MealRateRow: nat := 8
  /** The deposit/due block: member i's row is `LedgerBlockRow + i`. */
  const LedgerBlockRow: nat := 18
  const DepositColumn: nat := 32
  const DueColumn: nat := 34

  /** The figures of the summary cards. */
  datatype Summary = Summary(totalMeals: real, memberCount: nat, totalBazar: real, mealRate: real)

  /** The figures of one member card. */
  datatype Member = Member(
    name: string,
    totalMeals: real,
    bazarCost: real,
    maidBill: real,
    extraExpenses: real,
    totalCost: real,
    deposit: real,
    due: real)

  function Min(a: nat, b: nat): nat
  {
    if a <= b then a else b
  }

  /** The text of cell `c` of row `r`, if the sheet has it. */
  function CellAt(rows: Rows, r: nat, c: nat): (cell: Option<string>)
    ensures cell.Some? <==> r < |rows| && c < |rows[r]|
    ensures cell.Some? ==> cell.value == rows[r][c]
  {
    if r < |rows| && c < |rows[r]| then Some(rows[r][c]) else None
  }

  /** The number in cell `c` of row `r`: 0 when the row or the cell is missing
      or its text is not a number. */
  function NumberAt(parse: NumberParser, rows: Rows, r: nat, c: nat): real
  {
    match CellAt(rows, r, c)
    case None => 0.0
    case Some(text) => parse(text).GetOr(0.0)
  }

  /** The soft default, case by case. This unfolds `NumberAt`; what it adds
      is the rule written out per case, not an independent check. */
  lemma NumberAtCases(parse: NumberParser, rows: Rows, r: nat, c: nat)
    ensures r >= |rows| ==> NumberAt(parse, rows, r, c) == 0.0
    ensures r < |rows| && c >= |rows[r]| ==> NumberAt(parse, rows, r, c) == 0.0
    ensures r < |rows| && c < |rows[r]| && parse(rows[r][c]).None? ==> NumberAt(parse, rows, r, c) == 0.0
    ensures r < |rows| && c < |rows[r]| && parse(rows[r][c]).Some?
            ==> NumberAt(parse, rows, r, c) == parse(rows[r][c]).value
  {
  }

  /** `row[0] && row[0].trim()`: the row has a name cell that is not blank. */
  predicate IsNamed(row: seq<string>)
  {
    NameColumn < |row| && !IsBlank(row[NameColumn])
  }

  /** How many of `rows` are named. */
  function CountNamed(rows: Rows): (n: nat)
    ensures n <= |rows|
  {
    if |rows| == 0 then 0
    else CountNamed(rows[..|rows| - 1]) + (if IsNamed(rows[|rows| - 1]) then 1 else 0)
  }

  /** The indices of the named rows among the first `n`. */
  function NamedSlots(rows: Rows, n: nat): set<nat>
    requires n <= |rows|
  {
    set i: nat | i < n && IsNamed(rows[i])
  }

  /** Counting named rows counts the set of their indices. */
  lemma {:induction false} CountNamedIsSetSize(rows: Rows)
    ensures CountNamed(rows) == |NamedSlots(rows, |rows|)|
  {
    if |rows| > 0 {
      CountNamedIsSetSize(rows[..|rows| - 1]);
      NamedSlotsSnoc(rows);
    } else {
      assert NamedSlots(rows, 0) == {};
    }
  }

  /** The named slots of a sheet are those of all but its last row, plus the
      last row when it is named. */
  lemma NamedSlotsSnoc(rows: Rows)
    requires |rows| > 0
    ensures |NamedSlots(rows, |rows|)|
         == |NamedSlots(rows[..|rows| - 1], |rows| - 1)| + (if IsNamed(rows[|rows| - 1]) then 1 else 0)
  {
    var init := rows[..|rows| - 1];
    var last := |rows| - 1;
    var extra: set<nat> := if IsNamed(rows[last]) then {last} else {};
    var before := NamedSlots(init, |init|);
    var after := NamedSlots(rows, |rows|);
    forall i: nat ensures i in after <==> i in before + extra {
      if i < last {
        assert rows[i] == init[i];
      }
    }
    assert after == before + extra;
    AddFreshSize(before, extra, last);
  }

  /** The number of members: the named rows among the first six (fewer when
      the sheet is shorter). */
  function MemberCount(rows: Rows): (n: nat)
    ensures n <= MemberSlots && n <= |rows|
    ensures n == |NamedSlots(rows, Min(MemberSlots, |rows|))|
  {
    var slots := rows[..Min(MemberSlots, |rows|)];
    CountNamedIsSetSize(slots);
    assert NamedSlots(slots, |slots|) == NamedSlots(rows, |slots|);
    CountNamed(slots)
  }

  /** The meal rate, cell AG10. */
  function MealRate(parse: NumberParser, rows: Rows): real
  {
    NumberAt(parse, rows, MealRateRow, MealsColumn)
  }

  /** `updateStats`: the summary cards. */
  function Summarize(parse: NumberParser, rows: Rows): (s: Summary)
    ensures s.memberCount <= 6 && s.memberCount <= |rows|
    ensures s.memberCount == |set i: nat | i < Min(6, |rows|) && IsNamed(rows[i])|
    ensures s.totalMeals == NumberAt(parse, rows, 6, 32)
    ensures s.totalBazar == NumberAt(parse, rows, 7, 32)
    ensures s.mealRate == NumberAt(parse, rows, 8, 32)
    ensures |rows| < 9 ==> s.mealRate == 0.0
    ensures |rows| < 8 ==> s.totalBazar == 0.0
    ensures |rows| < 7 ==> s.totalMeals == 0.0
  {
    Summary(
      NumberAt(parse, rows, TotalMealsRow, MealsColumn),
      MemberCount(rows),
      NumberAt(parse, rows, TotalBazarRow, MealsColumn),
      MealRate(parse, rows))
  }

  /** The name shown for member `i` when the name cell is empty. */
  function Placeholder(i: nat): (name: string)
    ensures name != ""
  {
    "Member " + DecimalString(i + 1)
  }

  /** `row[0] || "Member i+1"`: the name cell, unless it is missing or empty. */
  function MemberName(row: seq<string>, i: nat): string
  {
    if NameColumn < |row| && row[NameColumn] != "" then row[NameColumn] else Placeholder(i)
  }

  /** The card of member `i`, read from row `i` and row `18 + i`. */
  function MemberAt(parse: NumberParser, rows: Rows, rate: real, i: nat): Member
    requires i < |rows|
  {
    var meals := NumberAt(parse, rows, i, MealsColumn);
    var maid := NumberAt(parse, rows, i, MaidColumn);
    var extra := NumberAt(parse, rows, i, ExtraColumn);
    var bazar := meals * rate;
    Member(
      MemberName(rows[i], i),
      meals,
      bazar,
      maid,
      extra,
      bazar + maid + extra,
      NumberAt(parse, rows, LedgerBlockRow + i, DepositColumn),
      NumberAt(parse, rows, LedgerBlockRow + i, DueColumn))
  }

  /** `renderMemberDashboards`: one card per row among the first six (there
      are fewer than six when the sheet is shorter). What each card holds is
      stated by `MemberCard`. */
  function Members(parse: NumberParser, rows: Rows): (ms: seq<Member>)
    ensures |ms| == Min(6, |rows|)
  {
    var rate := MealRate(parse, rows);
    var n := Min(MemberSlots, |rows|);
    var ms := seq(n, i requires 0 <= i < n => MemberAt(parse, rows, rate, i));
    ms
  }

  /** Card `i` shows row `i`'s name (or the placeholder), its meals, maid bill
      and extra expenses from columns AG to AI; its bazar cost is those meals
      at the meal rate of cell AG10, the cell the summary reads, and its total
      cost adds the maid bill and extras; its deposit and due come from row
      `18 + i`, columns AG and AI. It unfolds `Members` and `MemberAt`: its
      value is to pin each field to the literal cell of the sheet layout
      (row, column 32/33/34, row 8 for the rate, row 18 + i), so that a change
      to a layout constant shows here, rather than to check the arithmetic
      independently. */
  lemma MemberCard(parse: NumberParser, rows: Rows, i: nat)
    requires i < |Members(parse, rows)|
    ensures var m := Members(parse, rows)[i];
      && m.name == (if |rows[i]| > 0 && rows[i][0] != "" then rows[i][0] else Placeholder(i))
      && m.totalMeals == NumberAt(parse, rows, i, 32)
      && m.maidBill == NumberAt(parse, rows, i, 33)
      && m.extraExpenses == NumberAt(parse, rows, i, 34)
      && m.bazarCost == m.totalMeals * NumberAt(parse, rows, 8, 32)
      && m.totalCost == m.bazarCost + m.maidBill + m.extraExpenses
      && m.deposit == NumberAt(parse, rows, 18 + i, 32)
      && m.due == NumberAt(parse, rows, 18 + i, 34)
  {
  }

  /** A member whose row in the deposit/due block is missing has a deposit and
      a due of 0. */
  lemma MissingLedgerRow(parse: NumberParser, rows: Rows, i: nat)
    requires i < |Members(parse, rows)|
    requires |rows| <= 18 + i
    ensures Members(parse, rows)[i].deposit == 0.0
    ensures Members(parse, rows)[i].due == 0.0
  {
  }

  /** An empty sheet gives zeros everywhere and no member cards. */
  lemma EmptySheet(parse: NumberParser)
    ensures Summarize(parse, []) == Summary(0.0, 0, 0.0, 0.0)
    ensures Members(parse, []) == []
  {
    assert NamedSlots([], 0) == {};
  }

  /** The worked example of the sheet layout: Alice's card. */
  lemma AliceCard(parse: NumberParser, rows: Rows)
    requires |rows| == 25
    requires |rows[0]| > 32 && rows[0][0] == "Alice" && parse(rows[0][32]) == Some(20.0)
    requires |rows[8]| > 32 && parse(rows[8][32]) == Some(55.5)
    requires |rows[18]| > 34 && parse(rows[18][32]) == Some(1200.0) && parse(rows[18][34]) == Some(300.0)
    ensures Members(parse, rows)[0].name == "Alice"
    ensures Members(parse, rows)[0].totalMeals == 20.0
    ensures Members(parse, rows)[0].bazarCost == 1110.0
    ensures Members(parse, rows)[0].deposit == 1200.0
    ensures Members(parse, rows)[0].due == 300.0
  {
  }

  /** The extraction reads rows 0 to 8 and the deposit/due rows 18 to 23 and
      nothing else: sheets of the same length that agree on those rows give the
      same cards. */
  lemma ReadsOnlyLayoutRows(parse: NumberParser, rows: Rows, other: Rows)
    requires |rows| == |other|
    requires forall i :: 0 <= i < |rows| && (i < 9 || 18 <= i < 24) ==> rows[i] == other[i]
    ensures Summarize(parse, rows) == Summarize(parse, other)
    ensures Members(parse, rows) == Members(parse, other)
  {
    var n := Min(MemberSlots, |rows|);
    assert NamedSlots(rows, n) == NamedSlots(other, n);
    forall r: nat, c: nat | r < 9 || 18 <= r < 24
      ensures NumberAt(parse, rows, r, c) == NumberAt(parse, other, r, c)
    {
    }
    var ms := Members(parse, rows);
    var ms' := Members(parse, other);
    forall i | 0 <= i < |ms| ensures ms[i] == ms'[i] {
      assert NumberAt(parse, rows, 18 + i, 32) == NumberAt(parse, other, 18 + i, 32);
      assert NumberAt(parse, rows, 18 + i, 34) == NumberAt(parse, other, 18 + i, 34);
    }
  }

  function SumMeals(ms: seq<Member>): real
  {
    if |ms| == 0 then 0.0 else SumMeals(ms[..|ms| - 1]) + ms[|ms| - 1].totalMeals
  }

  function SumBazar(ms: seq<Member>): real
  {
    if |ms| == 0 then 0.0 else SumBazar(ms[..|ms| - 1]) + ms[|ms| - 1].bazarCost
  }

  function SumMaid(ms: seq<Member>): real
  {
    if |ms| == 0 then 0.0 else SumMaid(ms[..|ms| - 1]) + ms[|ms| - 1].maidBill
  }

  function SumExtra(ms: seq<Member>): real
  {
    if |ms| == 0 then 0.0 else SumExtra(ms[..|ms| - 1]) + ms[|ms| - 1].extraExpenses
  }

  function SumCost(ms: seq<Member>): real
  {
    if |ms| == 0 then 0.0 else SumCost(ms[..|ms| - 1]) + ms[|ms| - 1].totalCost
  }

  /** Cards priced at one rate allocate that rate times their meals. */
  lemma {:induction false} AllocationAtRate(ms: seq<Member>, rate: real)
    requires forall i :: 0 <= i < |ms| ==> ms[i].bazarCost == ms[i].totalMeals * rate
    ensures SumBazar(ms) == rate * SumMeals(ms)
  {
    if |ms| > 0 {
      AllocationAtRate(ms[..|ms| - 1], rate);
    }
  }

  /** Cards whose totals add up add up to the sums of their parts. */
  lemma {:induction false} CostSplit(ms: seq<Member>)
    requires forall i :: 0 <= i < |ms| ==> ms[i].totalCost == ms[i].bazarCost + ms[i].maidBill + ms[i].extraExpenses
    ensures SumCost(ms) == SumBazar(ms) + SumMaid(ms) + SumExtra(ms)
  {
    if |ms| > 0 {
      CostSplit(ms[..|ms| - 1]);
    }
  }

  /** The bazar cost the cards allocate is the meal rate times the meals they
      count; when the total-meals cell agrees with the members' meals, the
      cards share out exactly the meal rate times the total meals. Their total
      costs add up to that bazar share plus the maid bills and extras. */
  lemma BazarAllocation(parse: NumberParser, rows: Rows)
    ensures SumBazar(Members(parse, rows)) == Summarize(parse, rows).mealRate * SumMeals(Members(parse, rows))
    ensures SumMeals(Members(parse, rows)) == Summarize(parse, rows).totalMeals
            ==> SumBazar(Members(parse, rows)) == Summarize(parse, rows).mealRate * Summarize(parse, rows).totalMeals
    ensures SumCost(Members(parse, rows))
         == SumBazar(Members(parse, rows)) + SumMaid(Members(parse, rows)) + SumExtra(Members(parse, rows))
  {
    var ms := Members(parse, rows);
    var summary := Summarize(parse, rows);
    CardsAtMealRate(parse, rows);
    PricedCards(ms, summary.mealRate);
  }

  /** Cards priced at one rate, whose totals add up their parts. */
  lemma PricedCards(ms: seq<Member>, rate: real)
    requires forall i :: 0 <= i < |ms| ==> ms[i].bazarCost == ms[i].totalMeals * rate
    requires forall i :: 0 <= i < |ms| ==> ms[i].totalCost == ms[i].bazarCost + ms[i].maidBill + ms[i].extraExpenses
    ensures SumBazar(ms) == rate * SumMeals(ms)
    ensures SumCost(ms) == SumBazar(ms) + SumMaid(ms) + SumExtra(ms)
  {
    AllocationAtRate(ms, rate);
    CostSplit(ms);
  }

  /** Every card is priced at the meal rate of cell AG10 and totals its parts.
      This unfolds `MemberAt`; it is the bridge from the cards to the
      layout-free sums of `PricedCards`, not an independent check. */
  lemma CardsAtMealRate(parse: NumberParser, rows: Rows)
    ensures forall i :: 0 <= i < |Members(parse, rows)| ==>
      Members(parse, rows)[i].bazarCost == Members(parse, rows)[i].totalMeals * MealRate(parse, rows)
    ensures forall i :: 0 <= i < |Members(parse, rows)| ==>
      Members(parse, rows)[i].totalCost
        == Members(parse, rows)[i].bazarCost + Members(parse, rows)[i].maidBill + Members(parse, rows)[i].extraExpenses
  {
  }

  /** Every row has a name cell, and it is trimmed. */
  predicate TrimmedNames(rows: Rows)
  {
    forall i :: 0 <= i < |rows| ==> |rows[i]| >= 1 && IsTrimmed(rows[i][0])
  }

  /** The rows the CSV parser produces have trimmed name cells. */
  lemma ParsedRowsHaveTrimmedNames(text: string)
    ensures TrimmedNames(Csv.ParseCsv(text).data)
  {
    var rows := Csv.ParseCsv(text).data;
    var parsed := Csv.ParseLines(Csv.Lines(text)[1..]);
    forall i | 0 <= i < |rows| ensures |rows[i]| >= 1 && IsTrimmed(rows[i][0]) {
      assert rows[i] in rows;
      var k :| 0 <= k < |parsed| && parsed[k] == rows[i];
    }
  }

  /** With a trimmed name cell, a row is counted exactly when its card shows
      that cell rather than a placeholder. */
  lemma NamedRowShowsName(row: seq<string>, i: nat)
    requires |row| >= 1 && IsTrimmed(row[0])
    ensures IsNamed(row) <==> MemberName(row, i) == row[0]
  {
    assert Trim(row[0]) == row[0];
  }

  /** On rows with trimmed name cells, as the CSV parser produces them, the
      member count is the number of cards that show the sheet's own name
      rather than a placeholder. */
  lemma CountedMembersAreNamedCards(parse: NumberParser, rows: Rows)
    requires TrimmedNames(rows)
    ensures var ms := Members(parse, rows);
            Summarize(parse, rows).memberCount == |set i: nat | i < |ms| && ms[i].name == rows[i][0]|
  {
    var ms := Members(parse, rows);
    forall i: nat | i < |ms| ensures IsNamed(rows[i]) <==> ms[i].name == rows[i][0] {
      NamedRowShowsName(rows[i], i);
    }
    assert NamedSlots(rows, |ms|) == set i: nat | i < |ms| && ms[i].name == rows[i][0];
  }
}
