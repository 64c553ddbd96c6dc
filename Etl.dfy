/** The cleaning and load-preparation script etl_process.py: a data frame
    read from the CSV is cleaned column by column, completed to the sixteen
    columns of the `checkpost_stops` table, and turned into positional rows
    for one INSERT statement. The frame is a `Frame` object whose fields the
    script's steps update in place; what each step does to the columns is
    stated by the pure functions below. */
module Etl {
  import opened Values
  import opened Text

  // ---------------------------------------------------------------------
  // Fixed column lists

  /** `bool_cols`. */
  const BoolCols: seq<string> := ["search_conducted", "is_arrested", "drugs_related_stop"]

  /** `text_cols`: missing values here become "Unknown". */
  const TextCols: seq<string> :=
    ["country_name", "driver_gender", "driver_race", "violation_raw",
     "violation", "search_type", "stop_outcome", "stop_duration", "vehicle_number"]

  /** `sql_columns`: the columns of a row handed to the INSERT, in order. */
  const SqlColumns: seq<string> :=
    ["stop_date", "stop_time", "country_name", "driver_gender",
     "driver_age_raw", "driver_age", "driver_race", "violation_raw",
     "violation", "search_conducted", "search_type", "stop_outcome",
     "is_arrested", "stop_duration", "drugs_related_stop", "vehicle_number"]

  predicate Distinct(cs: seq<string>) {
    forall a, b :: 0 <= a < b < |cs| ==> cs[a] != cs[b]
  }

  /** No boolean column is a text column, and `driver_age`, `stop_date` and
      `stop_time` are neither. */
  lemma ColumnListsDisjoint()
    ensures forall c :: c in BoolCols ==> c !in TextCols
    ensures "stop_date" !in TextCols + BoolCols && "stop_time" !in TextCols + BoolCols && "driver_age" !in TextCols + BoolCols
  {
  }

  /** No list names a column twice. */
  lemma ColumnListsDistinct()
    ensures Distinct(BoolCols) && Distinct(TextCols) && Distinct(SqlColumns)
  {
  }

  // ---------------------------------------------------------------------
  // Header normalisation

  /** The header rule `c.strip().lower()`. */
  function NormaliseName(c: string): (r: string)
    ensures forall i :: 0 <= i < |r| ==> !IsUpper(r[i])
    ensures r == [] || (!IsSpace(r[0]) && !IsSpace(r[|r| - 1]))
  {
    Lower(Strip(c))
  }

  /** Normalising a header twice is the same as normalising it once. */
  lemma NormaliseNameIdempotent(c: string)
    ensures NormaliseName(NormaliseName(c)) == NormaliseName(c)
  {
    StripNoSpaceEnds(NormaliseName(c));
    LowerIdempotent(Strip(c));
  }

  // ---------------------------------------------------------------------
  // Boolean normalisation

  /** `bool_mapper`. Python's dictionary treats the keys 1 and True (0 and
      False) as one key; they carry the same value, so keeping them apart
      here changes no lookup. */
  const BoolMapper: map<Cell, bool> := map[
    Str("True") := true, Str("False") := false, Str("true") := true, Str("false") := false,
    Str("TRUE") := true, Str("FALSE") := false, Str("1") := true, Str("0") := false,
    Int(1) := true, Int(0) := false, Str("y") := true, Str("n") := false,
    Bool(true) := true, Bool(false) := false]

  /** The spellings of true the cleaning accepts. */
  const TrueForms: set<Cell> :=
    {Str("True"), Str("true"), Str("TRUE"), Str("1"), Int(1), Str("y"), Bool(true)}

  /** The spellings of false the cleaning accepts. */
  const FalseForms: set<Cell> :=
    {Str("False"), Str("false"), Str("FALSE"), Str("0"), Int(0), Str("n"), Bool(false)}

  /** One cell of `df[c].map(bool_mapper)`: a key of the mapper becomes its
      boolean, everything else (null included) becomes null. */
  function NormaliseBool(c: Cell): (r: Cell)
    ensures r == Bool(true) <==> c in TrueForms
    ensures r == Bool(false) <==> c in FalseForms
    ensures r == Null <==> c !in TrueForms && c !in FalseForms
  {
    if c in BoolMapper then Bool(BoolMapper[c]) else Null
  }

  // ---------------------------------------------------------------------
  // Violation derivation

  /** `map_violation`: null becomes "Unknown"; otherwise the lower-cased text
      is tested against the keyword rules in order, and the original text,
      stripped and title-cased, is the fallback. */
  function MapViolation(c: Cell): (r: string)
    ensures c.Null? ==> r == "Unknown"
  {
    if c.Null? then "Unknown" else ClassifyText(Show(c))
  }

  /** `map_violation` past its null test, on `str(s)`. */
  function ClassifyText(x: string): string {
    var s0 := Lower(x);
    if Contains(s0, "speed") then "Speeding"
    else if Contains(s0, "dui") || Contains(s0, "drunk") then "DUI"
    else if Contains(s0, "seat") then "Seatbelt"
    else if Contains(s0, "equipment") then "Equipment"
    else Title(Strip(x))
  }

  /** A keyword rule: any keyword occurring in the text selects the label. */
  datatype Rule = Rule(keywords: seq<string>, category: string)

  /** The rules of `map_violation` as a table, in the order they are tried. */
  const ViolationRules: seq<Rule> := [
    Rule(["speed"], "Speeding"),
    Rule(["dui", "drunk"], "DUI"),
    Rule(["seat"], "Seatbelt"),
    Rule(["equipment"], "Equipment")]

  /** The labels the rules can produce. */
  const ViolationLabels: set<string> := {"Speeding", "DUI", "Seatbelt", "Equipment"}

  /** All keywords of all rules. */
  const ViolationKeywords: seq<string> := ["speed", "dui", "drunk", "seat", "equipment"]

  predicate Fires(rule: Rule, s0: string) {
    exists k :: k in rule.keywords && Contains(s0, k)
  }

  /** The label of the first rule that fires, if any. */
  function FirstMatch(rules: seq<Rule>, s0: string): (r: Option<string>)
    ensures r.None? <==> forall i :: 0 <= i < |rules| ==> !Fires(rules[i], s0)
    ensures r.Some? ==> exists i :: 0 <= i < |rules| && Fires(rules[i], s0) && r.value == rules[i].category
                                   && forall j :: 0 <= j < i ==> !Fires(rules[j], s0)
  {
    if rules == [] then None
    else if Fires(rules[0], s0) then Some(rules[0].category)
    else
      var r := FirstMatch(rules[1..], s0);
      assert forall i :: 1 <= i < |rules| ==> rules[i] == rules[1..][i - 1];
      r
  }

  /** `map_violation` is "first rule that fires wins", with the stripped,
      title-cased text as the fallback. */
  lemma MapViolationIsFirstMatch(c: Cell)
    requires !c.Null?
    ensures MapViolation(c) == match FirstMatch(ViolationRules, Lower(Show(c)))
                               case Some(category) => category
                               case None => Title(Strip(Show(c)))
  {
    ClassifyTextIsFirstMatch(Show(c));
  }

  /** The same for the text `str(s)` of a value. */
  lemma ClassifyTextIsFirstMatch(x: string)
    ensures ClassifyText(x) == match FirstMatch(ViolationRules, Lower(x))
                               case Some(category) => category
                               case None => Title(Strip(x))
  {
    RulesSpelled(Lower(x));
  }

  /** Each rule fires exactly when one of its keywords occurs. */
  lemma RulesSpelled(s0: string)
    ensures Fires(ViolationRules[0], s0) <==> Contains(s0, "speed")
    ensures Fires(ViolationRules[1], s0) <==> Contains(s0, "dui") || Contains(s0, "drunk")
    ensures Fires(ViolationRules[2], s0) <==> Contains(s0, "seat")
    ensures Fires(ViolationRules[3], s0) <==> Contains(s0, "equipment")
  {
  }

  /** Every label is the category of a rule that fires on the label itself,
      lower-cased: it holds a keyword of its own rule, so it holds one of
      the keywords. */
  lemma LabelHoldsKeyword(r: string)
    requires r in ViolationLabels
    ensures exists i :: 0 <= i < |ViolationRules| && ViolationRules[i].category == r && Fires(ViolationRules[i], Lower(r))
    ensures exists i :: 0 <= i < |ViolationKeywords| && Contains(Lower(r), ViolationKeywords[i])
  {
    var rules, kw := ViolationRules, ViolationKeywords;
    if r == "Speeding" {
      assert OccursAt(Lower(r), kw[0], 0);
      assert kw[0] in rules[0].keywords && Fires(rules[0], Lower(r));
    } else if r == "DUI" {
      assert OccursAt(Lower(r), kw[1], 0);
      assert kw[1] in rules[1].keywords && Fires(rules[1], Lower(r));
    } else if r == "Seatbelt" {
      assert OccursAt(Lower(r), kw[3], 0);
      assert kw[3] in rules[2].keywords && Fires(rules[2], Lower(r));
    } else {
      assert OccursAt(Lower(r), kw[4], 0);
      assert kw[4] in rules[3].keywords && Fires(rules[3], Lower(r));
    }
  }

  /** Text without any keyword never title-cases into a label. */
  lemma FallbackIsNoLabel(x: string)
    requires forall i :: 0 <= i < |ViolationKeywords| ==> !Contains(Lower(x), ViolationKeywords[i])
    ensures Title(Strip(x)) !in ViolationLabels
  {
    var t := Strip(x);
    var r := Title(t);
    if r in ViolationLabels {
      LabelHoldsKeyword(r);
      var i :| 0 <= i < |ViolationKeywords| && Contains(Lower(r), ViolationKeywords[i]);
      LowerTitleAfter(t, false);
      assert Contains(x, t) by { assert OccursAt(x, t, |x| - |TrimStart(x)|); }
      ContainsLower(x, t);
      ContainsTrans(Lower(x), Lower(t), ViolationKeywords[i]);
      assert false;
    }
  }

  /** A non-null raw value is mapped to one of the four category labels
      exactly when its lower-cased text holds one of the keywords: the
      title-cased fallback can never pass for a label. */
  lemma MapViolationLabelIffKeyword(c: Cell)
    requires !c.Null?
    ensures MapViolation(c) in ViolationLabels <==>
            exists i :: 0 <= i < |ViolationKeywords| && Contains(Lower(Show(c)), ViolationKeywords[i])
  {
    ClassifyLabelIffKeyword(Show(c));
  }

  /** The same for the text `str(s)` of a value. */
  lemma ClassifyLabelIffKeyword(x: string)
    ensures ClassifyText(x) in ViolationLabels <==>
            exists i :: 0 <= i < |ViolationKeywords| && Contains(Lower(x), ViolationKeywords[i])
  {
    var s0 := Lower(x);
    var kw := ViolationKeywords;
    assert kw[0] == "speed" && kw[1] == "dui" && kw[2] == "drunk" && kw[3] == "seat" && kw[4] == "equipment";
    if Contains(s0, kw[0]) || Contains(s0, kw[1]) || Contains(s0, kw[2]) || Contains(s0, kw[3]) || Contains(s0, kw[4]) {
      assert ClassifyText(x) in ViolationLabels;
    } else {
      assert forall i :: 0 <= i < |kw| ==> !Contains(s0, kw[i]) by {
        forall i | 0 <= i < |kw| ensures !Contains(s0, kw[i]) {
          assert i == 0 || i == 1 || i == 2 || i == 3 || i == 4;
        }
      }
      assert ClassifyText(x) == Title(Strip(x));
      FallbackIsNoLabel(x);
    }
  }

  /** The rules are ordered: text that mentions both speeding and drunk
      driving is classified as speeding. */
  lemma SpeedingBeforeDui(s: string)
    requires Contains(Lower(s), "speed") && Contains(Lower(s), "dui")
    ensures MapViolation(Str(s)) == "Speeding"
  {
  }

  // ---------------------------------------------------------------------
  // Text fill

  /** One cell of `df[c].fillna('Unknown')`. */
  function FillCell(c: Cell): (r: Cell)
    ensures r != Null
    ensures c != Null ==> r == c
    ensures c == Null ==> r == Str("Unknown")
  {
    if c.Null? then Str("Unknown") else c
  }

  // ---------------------------------------------------------------------
  // Columns of a frame

  /** A frame's shape: one data column per name, all of the same height. */
  predicate Wf(names: seq<string>, data: seq<seq<Cell>>, height: nat) {
    |names| == |data| && forall j :: 0 <= j < |data| ==> |data[j]| == height
  }

  /** Position of the first column called `c`: the column `df[c]` denotes. */
  function IndexOf(names: seq<string>, c: string): (j: nat)
    requires c in names
    ensures j < |names| && names[j] == c
    ensures forall k :: 0 <= k < j ==> names[k] != c
  {
    if names[0] == c then 0 else 1 + IndexOf(names[1..], c)
  }

  /** Columns added at the end do not move the first column of a name. */
  lemma IndexOfAppend(names: seq<string>, extra: seq<string>, c: string)
    requires c in names
    ensures IndexOf(names + extra, c) == IndexOf(names, c)
  {
    var j := IndexOf(names, c);
    var j' := IndexOf(names + extra, c);
    assert (names + extra)[j] == c;
  }

  /** A name not yet present is found among the added columns. */
  lemma IndexOfAppendNew(names: seq<string>, extra: seq<string>, c: string)
    requires c !in names && c in extra
    ensures IndexOf(names + extra, c) == |names| + IndexOf(extra, c)
  {
    var j := IndexOf(extra, c);
    var j' := IndexOf(names + extra, c);
    assert (names + extra)[|names| + j] == c;
  }

  /** Column `j` is `df[c]` for one of the names in `cs`. */
  predicate Targeted(names: seq<string>, cs: seq<string>, j: int)
    requires 0 <= j < |names|
  {
    names[j] in cs && IndexOf(names, names[j]) == j
  }

  function MapCells(col: seq<Cell>, f: Cell -> Cell): (r: seq<Cell>)
    ensures |r| == |col| && forall k :: 0 <= k < |col| ==> r[k] == f(col[k])
  {
    seq(|col|, k requires 0 <= k < |col| => f(col[k]))
  }

  /** `for c in cs: if c in df.columns: df[c] = df[c].<f>` on the column data. */
  function MapListed(names: seq<string>, data: seq<seq<Cell>>, cs: seq<string>, f: Cell -> Cell): (r: seq<seq<Cell>>)
    requires |names| == |data|
    ensures |r| == |data|
  {
    seq(|data|, j requires 0 <= j < |data| => if Targeted(names, cs, j) then MapCells(data[j], f) else data[j])
  }

  /** One more name of a loop over distinct names maps at most one more column. */
  lemma MapListedStep(names: seq<string>, data: seq<seq<Cell>>, cs: seq<string>, i: nat, f: Cell -> Cell)
    requires |names| == |data| && i < |cs| && Distinct(cs)
    ensures cs[i] !in names ==> MapListed(names, data, cs[..i + 1], f) == MapListed(names, data, cs[..i], f)
    ensures cs[i] in names ==>
      var j := IndexOf(names, cs[i]);
      MapListed(names, data, cs[..i + 1], f) == MapListed(names, data, cs[..i], f)[j := MapCells(data[j], f)]
  {
    var before, after := cs[..i], cs[..i + 1];
    assert after == before + [cs[i]];
    assert cs[i] !in before;
    var m, m' := MapListed(names, data, before, f), MapListed(names, data, after, f);
    if cs[i] !in names {
      forall j | 0 <= j < |data|
        ensures m'[j] == m[j]
      {
        assert Targeted(names, after, j) == Targeted(names, before, j);
      }
    } else {
      var k := IndexOf(names, cs[i]);
      forall j | 0 <= j < |data|
        ensures m'[j] == m[k := MapCells(data[k], f)][j]
      {
        if j == k {
          assert Targeted(names, after, j);
        } else {
          assert Targeted(names, after, j) == Targeted(names, before, j);
        }
      }
    }
  }

  /** Cleaning of the boolean columns, on the column data. */
  function BoolStep(names: seq<string>, data: seq<seq<Cell>>): (r: seq<seq<Cell>>)
    requires |names| == |data|
  {
    MapListed(names, data, BoolCols, NormaliseBool)
  }

  /** Filling of the text columns, on the column data. */
  function FillStep(names: seq<string>, data: seq<seq<Cell>>): (r: seq<seq<Cell>>)
    requires |names| == |data|
  {
    MapListed(names, data, TextCols, FillCell)
  }

  /** After the boolean loop every present boolean column holds only
      booleans and nulls, each cell the mapper's image of the old one, and
      every other column is as it was. */
  lemma BoolStepSpec(names: seq<string>, data: seq<seq<Cell>>, height: nat)
    requires Wf(names, data, height)
    ensures Wf(names, BoolStep(names, data), height)
    ensures forall c :: c in BoolCols && c in names ==>
      var j := IndexOf(names, c);
      forall k :: 0 <= k < height ==>
        BoolStep(names, data)[j][k] == NormaliseBool(data[j][k])
        && (BoolStep(names, data)[j][k].Bool? || BoolStep(names, data)[j][k].Null?)
    ensures forall c :: c !in BoolCols && c in names ==>
      BoolStep(names, data)[IndexOf(names, c)] == data[IndexOf(names, c)]
  {
  }

  /** After the fill loop each cell of a present text column is `fillna`'s
      image of the old one: no missing cell is left, a missing cell became
      "Unknown", cells that were present are unchanged, and every other
      column is as it was. */
  lemma FillStepSpec(names: seq<string>, data: seq<seq<Cell>>, height: nat)
    requires Wf(names, data, height)
    ensures Wf(names, FillStep(names, data), height)
    ensures forall c :: c in TextCols && c in names ==>
      var j := IndexOf(names, c);
      forall k :: 0 <= k < height ==>
        FillStep(names, data)[j][k] == FillCell(data[j][k])
        && FillStep(names, data)[j][k] != Null
        && (data[j][k] != Null ==> FillStep(names, data)[j][k] == data[j][k])
        && (data[j][k] == Null ==> FillStep(names, data)[j][k] == Str("Unknown"))
    ensures forall c :: c !in TextCols && c in names ==>
      FillStep(names, data)[IndexOf(names, c)] == data[IndexOf(names, c)]
  {
  }

  // ---------------------------------------------------------------------
  // Completion and projection

  /** The names of `cs` that are not columns yet, in the order of `cs`:
      the columns the completion loop adds. */
  function Missing(names: seq<string>, cs: seq<string>): (r: seq<string>)
    ensures forall c :: c in r <==> c in cs && c !in names
  {
    if cs == [] then []
    else Missing(names, cs[..|cs| - 1]) + (if cs[|cs| - 1] in names then [] else [cs[|cs| - 1]])
  }

  /** One more name of the completion loop adds at most that name. */
  lemma MissingStep(names: seq<string>, cs: seq<string>, i: nat)
    requires i < |cs| && Distinct(cs)
    ensures Missing(names, cs[..i + 1]) == Missing(names, cs[..i]) + (if cs[i] in names then [] else [cs[i]])
    ensures cs[i] !in Missing(names, cs[..i])
  {
    assert cs[..i + 1][..i] == cs[..i];
    assert cs[i] !in cs[..i];
  }

  /** `n` columns of `height` Python `None` cells each. */
  function NullColumns(n: nat, height: nat): (r: seq<seq<Cell>>)
    ensures |r| == n && forall j :: 0 <= j < n ==> r[j] == seq(height, _ => Null)
  {
    seq(n, _ => seq(height, _ => Null))
  }

  lemma NullColumnsSnoc(n: nat, height: nat)
    ensures NullColumns(n + 1, height) == NullColumns(n, height) + [seq(height, _ => Null)]
  {
  }

  /** The frame after the first `i` rounds of a completion loop over `cs`. */
  function Completed(names: seq<string>, data: seq<seq<Cell>>, height: nat, cs: seq<string>, i: nat): (seq<string>, seq<seq<Cell>>)
    requires i <= |cs|
  {
    var m := Missing(names, cs[..i]);
    (names + m, data + NullColumns(|m|, height))
  }

  /** Added null columns have the frame's height. */
  lemma CompletedWf(names: seq<string>, data: seq<seq<Cell>>, height: nat, cs: seq<string>, i: nat)
    requires Wf(names, data, height) && i <= |cs|
    ensures Wf(Completed(names, data, height, cs, i).0, Completed(names, data, height, cs, i).1, height)
  {
    var m := Missing(names, cs[..i]);
    var nulls := NullColumns(|m|, height);
    var d := data + nulls;
    forall j | 0 <= j < |d|
      ensures |d[j]| == height
    {
      if j >= |data| {
        assert d[j] == nulls[j - |data|];
      }
    }
  }

  /** One round of the completion loop over distinct names: `cs[i]` is
      present now exactly when it was present before the loop, and it is
      added as a null column when it is not. */
  lemma CompletedStep(names: seq<string>, data: seq<seq<Cell>>, height: nat, cs: seq<string>, i: nat)
    requires i < |cs| && Distinct(cs)
    ensures cs[i] in Completed(names, data, height, cs, i).0 <==> cs[i] in names
    ensures cs[i] in names ==> Completed(names, data, height, cs, i + 1) == Completed(names, data, height, cs, i)
    ensures cs[i] !in names ==>
      Completed(names, data, height, cs, i + 1)
      == (Completed(names, data, height, cs, i).0 + [cs[i]], Completed(names, data, height, cs, i).1 + [seq(height, _ => Null)])
  {
    var m := Missing(names, cs[..i]);
    MissingStep(names, cs, i);
    NullColumnsSnoc(|m|, height);
    if cs[i] !in names {
      assert names + (m + [cs[i]]) == (names + m) + [cs[i]];
      assert data + (NullColumns(|m|, height) + [seq(height, _ => Null)])
          == (data + NullColumns(|m|, height)) + [seq(height, _ => Null)];
    } else {
      assert m + [] == m;
    }
  }

  /** Before the first round the frame is as it was. */
  lemma CompletedStart(names: seq<string>, data: seq<seq<Cell>>, height: nat, cs: seq<string>)
    ensures Completed(names, data, height, cs, 0) == (names, data)
  {
    assert cs[..0] == [];
    assert names + [] == names && data + [] == data;
  }

  /** After the completion loop every `sql_columns` entry is a column; the
      columns that were there are untouched and each added one is all null. */
  lemma CompletedSpec(names: seq<string>, data: seq<seq<Cell>>, height: nat, cs: seq<string>)
    requires Wf(names, data, height)
    ensures var (n, d) := Completed(names, data, height, cs, |cs|);
      && Wf(n, d, height)
      && (forall c :: c in n <==> c in names || c in cs)
      && (forall c :: c in names ==> IndexOf(n, c) == IndexOf(names, c) && d[IndexOf(n, c)] == data[IndexOf(names, c)])
      && (forall c :: c in cs && c !in names ==> forall k :: 0 <= k < height ==> d[IndexOf(n, c)][k] == Null)
  {
    assert cs[..|cs|] == cs;
    CompletedWf(names, data, height, cs, |cs|);
    var m := Missing(names, cs);
    var (n, d) := Completed(names, data, height, cs, |cs|);
    forall c | c in names
      ensures IndexOf(n, c) == IndexOf(names, c) && d[IndexOf(n, c)] == data[IndexOf(names, c)]
    {
      IndexOfAppend(names, m, c);
    }
    forall c | c in cs && c !in names
      ensures forall k :: 0 <= k < height ==> d[IndexOf(n, c)][k] == Null
    {
      IndexOfAppendNew(names, m, c);
      assert d[IndexOf(n, c)] == NullColumns(|m|, height)[IndexOf(m, c)];
    }
  }

  /** `df[sql_columns].where(pd.notnull(df), None).values.tolist()`: row `i`
      lists the cells of row `i` in the `sql_columns` order. Null already
      stands for NaN, so the `where` changes nothing here. */
  function Rows(names: seq<string>, data: seq<seq<Cell>>, height: nat): (rows: seq<seq<Cell>>)
    requires Wf(names, data, height)
    requires forall c :: c in SqlColumns ==> c in names
  {
    seq(height, i requires 0 <= i < height =>
      seq(|SqlColumns|, k requires 0 <= k < |SqlColumns| => data[IndexOf(names, SqlColumns[k])][i]))
  }

  /** The positional INSERT stores every projected cell in the table column
      of the same name: there is one row per frame row, each with one cell
      per column of the INSERT and of the table, and cell `k` of row `i` is
      row `i` of the frame column named by the `k`-th column of the INSERT,
      which is also the `k`-th column of the table. */
  lemma RowsSpec(names: seq<string>, data: seq<seq<Cell>>, height: nat)
    requires Wf(names, data, height)
    requires forall c :: c in SqlColumns ==> c in names
    ensures |Rows(names, data, height)| == height
    ensures forall i :: 0 <= i < height ==> |Rows(names, data, height)[i]| == |InsertColumns| == |TableColumns| == 16
    ensures forall k :: 0 <= k < 16 ==> InsertColumns[k] in names && TableColumns[k].0 == InsertColumns[k]
    ensures forall i, k :: 0 <= i < height && 0 <= k < 16 ==>
      Rows(names, data, height)[i][k] == Col(names, data, InsertColumns[k])[i]
  {
    InsertMatchesTable();
  }

  // ---------------------------------------------------------------------
  // The table and the INSERT statement

  datatype SqlType = DateType | TimeType | IntType | BooleanType | Varchar(length: nat)

  /** The columns of `CREATE TABLE checkpost_stops` after the surrogate key
      `id INT AUTO_INCREMENT PRIMARY KEY`. */
  const TableColumns: seq<(string, SqlType)> := [
    ("stop_date", DateType), ("stop_time", TimeType),
    ("country_name", Varchar(100)), ("driver_gender", Varchar(20)),
    ("driver_age_raw", IntType), ("driver_age", IntType),
    ("driver_race", Varchar(50)), ("violation_raw", Varchar(200)),
    ("violation", Varchar(100)), ("search_conducted", BooleanType),
    ("search_type", Varchar(100)), ("stop_outcome", Varchar(50)),
    ("is_arrested", BooleanType), ("stop_duration", Varchar(50)),
    ("drugs_related_stop", BooleanType), ("vehicle_number", Varchar(30))]

  /** The column list of the INSERT statement. */
  const InsertColumns: seq<string> :=
    ["stop_date", "stop_time", "country_name", "driver_gender",
     "driver_age_raw", "driver_age", "driver_race", "violation_raw",
     "violation", "search_conducted", "search_type", "stop_outcome",
     "is_arrested", "stop_duration", "drugs_related_stop", "vehicle_number"]

  /** The INSERT statement, with its line breaks and indentation removed. */
  function InsertStatement(): string {
    "INSERT INTO checkpost_stops (" + (Join(InsertColumns, ", ") + (") VALUES (" + (Join(Repeat(Marker, 16), ", ") + ");")))
  }

  /** The projection order, the INSERT column list and the table's column
      order agree position by position. */
  lemma InsertMatchesTable()
    ensures InsertColumns == SqlColumns
    ensures |TableColumns| == |SqlColumns| && forall k :: 0 <= k < |SqlColumns| ==> TableColumns[k].0 == SqlColumns[k]
  {
  }

  /** The INSERT binds exactly one parameter per projected cell. */
  lemma InsertPlaceholders()
    ensures Placeholders(InsertStatement()) == |SqlColumns|
  {
    var d := Join(Repeat(Marker, 16), ", ");
    InsertTextPlain();
    JoinMarkers(16);
    PlainAfter(d, ");");
    PlainBefore(") VALUES (", d + ");");
    InsertColumnsPlain();
    PlainBefore(Join(InsertColumns, ", "), ") VALUES (" + (d + ");"));
    PlainBefore("INSERT INTO checkpost_stops (", Join(InsertColumns, ", ") + (") VALUES (" + (d + ");")));
  }

  /** The fixed text around the column list and the markers holds no '%'. */
  lemma InsertTextPlain()
    ensures '%' !in "INSERT INTO checkpost_stops ("
    ensures '%' !in ") VALUES ("
    ensures '%' !in ");"
  {
  }

  /** No column name of the INSERT holds a '%'. */
  lemma InsertColumnsPlain()
    ensures '%' !in Join(InsertColumns, ", ")
  {
    forall i | 0 <= i < |InsertColumns|
      ensures '%' !in InsertColumns[i]
    {
    }
    JoinNoPercent(InsertColumns, ", ");
  }

  // ---------------------------------------------------------------------
  // Coercions done by library parsers

  /** A cell of `pd.to_datetime(..., errors='coerce').dt.date`; the parser
      itself is a parameter. The cell is null exactly when the parse fails,
      and the parsed date otherwise. */
  function ParsedDay(parse: Cell -> Option<Date>, c: Cell): (r: Cell)
    ensures r.Day? || r.Null?
    ensures r.Null? <==> parse(c).None?
    ensures parse(c).Some? ==> r == Day(parse(c).value)
  {
    match parse(c)
    case Some(d) => Day(d)
    case None => Null
  }

  /** A cell of `pd.to_datetime(..., format='%H:%M:%S', errors='coerce').dt.time`:
      null exactly when the parse fails, the parsed time otherwise. */
  function ParsedClock(parse: Cell -> Option<Time>, c: Cell): (r: Cell)
    ensures r.Clock? || r.Null?
    ensures r.Null? <==> parse(c).None?
    ensures parse(c).Some? ==> r == Clock(parse(c).value)
  {
    match parse(c)
    case Some(t) => Clock(t)
    case None => Null
  }

  /** A cell of `pd.to_numeric(..., errors='coerce')`: null exactly when the
      coercion fails, the number otherwise. */
  function Numeric(toNumber: Cell -> Option<int>, c: Cell): (r: Cell)
    ensures r.Int? || r.Null?
    ensures r.Null? <==> toNumber(c).None?
    ensures toNumber(c).Some? ==> r == Int(toNumber(c).value)
  {
    match toNumber(c)
    case Some(n) => Int(n)
    case None => Null
  }

  function DayCell(parse: Cell -> Option<Date>): Cell -> Cell {
    c => ParsedDay(parse, c)
  }

  function ClockCell(parse: Cell -> Option<Time>): Cell -> Cell {
    c => ParsedClock(parse, c)
  }

  function NumberCell(toNumber: Cell -> Option<int>): Cell -> Cell {
    c => Numeric(toNumber, c)
  }

  /** A cell of `df['violation_raw'].apply(map_violation)`. It is text:
      "Unknown" for a missing raw value, and otherwise one of the four
      category labels exactly when the raw text holds a keyword. */
  function ViolationCell(c: Cell): (r: Cell)
    ensures r.Str? && r.s == MapViolation(c)
    ensures c.Null? ==> r.s == "Unknown"
    ensures !c.Null? ==>
      (r.s in ViolationLabels <==> exists i :: 0 <= i < |ViolationKeywords| && Contains(Lower(Show(c)), ViolationKeywords[i]))
  {
    if c.Null? then Str(MapViolation(c))
    else MapViolationLabelIffKeyword(c); Str(MapViolation(c))
  }

  // ---------------------------------------------------------------------
  // The cleaning steps, on the column data

  /** `df[c]`. */
  function Col(names: seq<string>, data: seq<seq<Cell>>, c: string): seq<Cell>
    requires |names| == |data| && c in names
  {
    data[IndexOf(names, c)]
  }

  /** `if c in df.columns: df[c] = df[c].<f>`. */
  function Convert(names: seq<string>, data: seq<seq<Cell>>, c: string, f: Cell -> Cell): (r: seq<seq<Cell>>)
    requires |names| == |data|
    ensures |r| == |data|
  {
    if c in names then data[IndexOf(names, c) := MapCells(data[IndexOf(names, c)], f)] else data
  }

  /** Converting column `c` maps each of its cells through `f` and leaves
      every other column as it was. */
  lemma ConvertSpec(names: seq<string>, data: seq<seq<Cell>>, height: nat, c: string, f: Cell -> Cell)
    requires Wf(names, data, height)
    ensures Wf(names, Convert(names, data, c, f), height)
    ensures c in names ==> forall k :: 0 <= k < height ==>
      Col(names, Convert(names, data, c, f), c)[k] == f(Col(names, data, c)[k])
    ensures forall e :: e in names && e != c ==> Col(names, Convert(names, data, c, f), e) == Col(names, data, e)
  {
  }

  /** `df[dst] = df[src].<f>` for a new name `dst`: one more column, last. */
  function Derive(names: seq<string>, data: seq<seq<Cell>>, src: string, dst: string, f: Cell -> Cell): (r: (seq<string>, seq<seq<Cell>>))
    requires |names| == |data| && src in names
    ensures |r.0| == |r.1|
  {
    (names + [dst], data + [MapCells(data[IndexOf(names, src)], f)])
  }

  /** A derived column is `f` of its source cell by cell, and every column
      that was there keeps its position and its cells. */
  lemma DeriveSpec(names: seq<string>, data: seq<seq<Cell>>, height: nat, src: string, dst: string, f: Cell -> Cell)
    requires Wf(names, data, height) && src in names && dst !in names
    ensures var (n, d) := Derive(names, data, src, dst, f);
      && Wf(n, d, height)
      && n == names + [dst]
      && (forall k :: 0 <= k < height ==> Col(n, d, dst)[k] == f(Col(names, data, src)[k]))
      && (forall e :: e in names ==> Col(n, d, e) == Col(names, data, e))
  {
    var (n, d) := Derive(names, data, src, dst, f);
    IndexOfAppendNew(names, [dst], dst);
    forall e | e in names
      ensures Col(n, d, e) == Col(names, data, e)
    {
      IndexOfAppend(names, [dst], e);
    }
  }

  /** The header names, normalised. */
  function NormalisedNames(names: seq<string>): (r: seq<string>)
    ensures |r| == |names| && forall j :: 0 <= j < |names| ==> r[j] == NormaliseName(names[j])
  {
    seq(|names|, j requires 0 <= j < |names| => NormaliseName(names[j]))
  }

  /** Whether the age step derives `driver_age` from `driver_age_raw`. */
  predicate DerivesAge(names: seq<string>) {
    "driver_age" !in names && "driver_age_raw" in names
  }

  /** Whether the violation step derives `violation` from `violation_raw`. */
  predicate DerivesViolation(names: seq<string>) {
    "violation_raw" in names && "violation" !in names
  }

  /** The age step: derive `driver_age` from `driver_age_raw` when only the
      raw column exists, coerce `driver_age` in place when it exists, and
      do nothing when neither does. */
  function AgeStep(names: seq<string>, data: seq<seq<Cell>>, toNumber: Cell -> Option<int>): (r: (seq<string>, seq<seq<Cell>>))
    requires |names| == |data|
    ensures |r.0| == |r.1|
  {
    if DerivesAge(names) then Derive(names, data, "driver_age_raw", "driver_age", NumberCell(toNumber))
    else (names, Convert(names, data, "driver_age", NumberCell(toNumber)))
  }

  /** After the age step `driver_age` exists exactly when one of the two age
      columns did, its cells are numbers or nulls coerced from the column it
      came from, and every other column is as it was. */
  lemma AgeStepSpec(names: seq<string>, data: seq<seq<Cell>>, height: nat, toNumber: Cell -> Option<int>)
    requires Wf(names, data, height)
    ensures var (n, d) := AgeStep(names, data, toNumber);
      && Wf(n, d, height)
      && n == (if DerivesAge(names) then names + ["driver_age"] else names)
      && (DerivesAge(names) ==> forall k :: 0 <= k < height ==>
            Col(n, d, "driver_age")[k] == Numeric(toNumber, Col(names, data, "driver_age_raw")[k]))
      && ("driver_age" in names ==> forall k :: 0 <= k < height ==>
            Col(n, d, "driver_age")[k] == Numeric(toNumber, Col(names, data, "driver_age")[k]))
      && (forall e :: e in names && e != "driver_age" ==> Col(n, d, e) == Col(names, data, e))
  {
    if DerivesAge(names) {
      DeriveSpec(names, data, height, "driver_age_raw", "driver_age", NumberCell(toNumber));
    } else {
      ConvertSpec(names, data, height, "driver_age", NumberCell(toNumber));
    }
  }

  /** The violation step: when `violation_raw` exists and `violation` does
      not, `df['violation'] = df['violation_raw'].apply(map_violation)`. */
  function ViolationStep(names: seq<string>, data: seq<seq<Cell>>): (r: (seq<string>, seq<seq<Cell>>))
    requires |names| == |data|
    ensures |r.0| == |r.1|
  {
    if DerivesViolation(names) then Derive(names, data, "violation_raw", "violation", ViolationCell)
    else (names, data)
  }

  /** The violation step adds `violation`, the category of each raw text,
      exactly when it was missing beside `violation_raw`; no other column
      changes. */
  lemma ViolationStepSpec(names: seq<string>, data: seq<seq<Cell>>, height: nat)
    requires Wf(names, data, height)
    ensures var (n, d) := ViolationStep(names, data);
      && Wf(n, d, height)
      && n == (if DerivesViolation(names) then names + ["violation"] else names)
      && (DerivesViolation(names) ==> forall k :: 0 <= k < height ==>
            Col(n, d, "violation")[k] == Str(MapViolation(Col(names, data, "violation_raw")[k])))
      && (forall e :: e in names ==> Col(n, d, e) == Col(names, data, e))
  {
    if DerivesViolation(names) {
      DeriveSpec(names, data, height, "violation_raw", "violation", ViolationCell);
    }
  }

  /** The two parse steps: `stop_date` and `stop_time` converted in place. */
  function Parsed(names: seq<string>, data: seq<seq<Cell>>, parseDate: Cell -> Option<Date>,
                  parseTime: Cell -> Option<Time>): (r: seq<seq<Cell>>)
    requires |names| == |data|
    ensures |r| == |data|
  {
    Convert(names, Convert(names, data, "stop_date", DayCell(parseDate)), "stop_time", ClockCell(parseTime))
  }

  /** The parse steps turn `stop_date` into dates and `stop_time` into times
      of day, nulls where parsing fails, and leave the other columns alone. */
  lemma ParsedSpec(names: seq<string>, data: seq<seq<Cell>>, height: nat, parseDate: Cell -> Option<Date>,
                   parseTime: Cell -> Option<Time>)
    requires Wf(names, data, height)
    ensures Wf(names, Parsed(names, data, parseDate, parseTime), height)
    ensures "stop_date" in names ==> forall k :: 0 <= k < height ==>
      Col(names, Parsed(names, data, parseDate, parseTime), "stop_date")[k] == ParsedDay(parseDate, Col(names, data, "stop_date")[k])
    ensures "stop_time" in names ==> forall k :: 0 <= k < height ==>
      Col(names, Parsed(names, data, parseDate, parseTime), "stop_time")[k] == ParsedClock(parseTime, Col(names, data, "stop_time")[k])
    ensures forall e :: e in names && e != "stop_date" && e != "stop_time" ==>
      Col(names, Parsed(names, data, parseDate, parseTime), e) == Col(names, data, e)
  {
    var d1 := Convert(names, data, "stop_date", DayCell(parseDate));
    ConvertSpec(names, data, height, "stop_date", DayCell(parseDate));
    ConvertSpec(names, d1, height, "stop_time", ClockCell(parseTime));
  }

  /** The frame after the parse and age steps; `header` is the normalised
      header. */
  function Aged(header: seq<string>, columns: seq<seq<Cell>>, parseDate: Cell -> Option<Date>,
                parseTime: Cell -> Option<Time>, toNumber: Cell -> Option<int>): (r: (seq<string>, seq<seq<Cell>>))
    requires |header| == |columns|
    ensures |r.0| == |r.1|
  {
    AgeStep(header, Parsed(header, columns, parseDate, parseTime), toNumber)
  }

  /** The frame after the boolean and violation steps as well. */
  function Derived(header: seq<string>, columns: seq<seq<Cell>>, parseDate: Cell -> Option<Date>,
                   parseTime: Cell -> Option<Time>, toNumber: Cell -> Option<int>): (r: (seq<string>, seq<seq<Cell>>))
    requires |header| == |columns|
    ensures |r.0| == |r.1|
  {
    var (n, d) := Aged(header, columns, parseDate, parseTime, toNumber);
    ViolationStep(n, BoolStep(n, d))
  }

  /** Section 2 of the script, "DATA CLEANING", on the column data after the
      header normalisation: its steps in their order, the fill last. */
  function Cleaned(header: seq<string>, columns: seq<seq<Cell>>, parseDate: Cell -> Option<Date>,
                   parseTime: Cell -> Option<Time>, toNumber: Cell -> Option<int>): (r: (seq<string>, seq<seq<Cell>>))
    requires |header| == |columns|
    ensures |r.0| == |r.1|
  {
    var (n, d) := Derived(header, columns, parseDate, parseTime, toNumber);
    (n, FillStep(n, d))
  }

  /** The columns the cleaning leaves in a frame whose normalised header is
      `header`: those read from the file, and the two it may derive. */
  predicate Provided(header: seq<string>, c: string) {
    || c in header
    || (c == "driver_age" && DerivesAge(header))
    || (c == "violation" && DerivesViolation(header))
  }

  /** The parse and age steps keep the frame's shape; `stop_date`,
      `stop_time` and `driver_age` then hold values of their type or nulls. */
  lemma AgedSpec(header: seq<string>, columns: seq<seq<Cell>>, height: nat, parseDate: Cell -> Option<Date>,
                        parseTime: Cell -> Option<Time>, toNumber: Cell -> Option<int>)
    requires Wf(header, columns, height)
    ensures var (n, d) := Aged(header, columns, parseDate, parseTime, toNumber);
      && Wf(n, d, height)
      && n == (if DerivesAge(header) then header + ["driver_age"] else header)
      && TypedColumns(n, d, height)
  {
    var n0 := header;
    var p := Parsed(n0, columns, parseDate, parseTime);
    ParsedSpec(n0, columns, height, parseDate, parseTime);
    AgeStepSpec(n0, p, height, toNumber);
    var (n, d) := AgeStep(n0, p, toNumber);
    assert "stop_date" != "driver_age" && "stop_time" != "driver_age" && "stop_date" != "stop_time";
    if "stop_date" in n {
      assert "stop_date" in n0;
      assert Col(n, d, "stop_date") == Col(n0, p, "stop_date");
    }
    if "stop_time" in n {
      assert "stop_time" in n0;
      assert Col(n, d, "stop_time") == Col(n0, p, "stop_time");
    }
  }

  /** The boolean and violation steps keep the frame's shape, the boolean
      columns hold only booleans and nulls, and the date, time and age
      columns are as the age step left them. */
  lemma DerivedSpec(header: seq<string>, columns: seq<seq<Cell>>, height: nat, parseDate: Cell -> Option<Date>,
                        parseTime: Cell -> Option<Time>, toNumber: Cell -> Option<int>)
    requires Wf(header, columns, height)
    ensures var (n, d) := Derived(header, columns, parseDate, parseTime, toNumber);
      var (n', d') := Aged(header, columns, parseDate, parseTime, toNumber);
      && Wf(n, d, height)
      && n == (if DerivesViolation(n') then n' + ["violation"] else n')
      && (forall c :: c in BoolCols && c in n ==> forall k :: 0 <= k < height ==> Col(n, d, c)[k].Bool? || Col(n, d, c)[k].Null?)
      && (forall c :: c in n' && c !in BoolCols ==> Col(n, d, c) == Col(n', d', c))
  {
    AgedSpec(header, columns, height, parseDate, parseTime, toNumber);
    var (n', d') := Aged(header, columns, parseDate, parseTime, toNumber);
    var b := BoolStep(n', d');
    BoolStepSpec(n', d', height);
    ViolationStepSpec(n', b, height);
    BooleansSurviveDerive(n', b, height);
  }

  /** The columns of a cleaned frame whose normalised header is `header`:
      those read from the file and the ones derived, so that `violation`
      exists wherever `violation_raw` does. */
  ghost predicate CleanShape(header: seq<string>, n: seq<string>) {
    && (forall c :: c in n <==> Provided(header, c))
    && ("violation_raw" in n ==> "violation" in n)
  }

  /** The cells of a cleaned frame: every boolean column holds only booleans
      and nulls, and no text column has a missing cell. */
  predicate CleanCells(n: seq<string>, d: seq<seq<Cell>>, height: nat)
    requires Wf(n, d, height)
  {
    && (forall c :: c in BoolCols && c in n ==> forall k :: 0 <= k < height ==> Col(n, d, c)[k].Bool? || Col(n, d, c)[k].Null?)
    && (forall c :: c in TextCols && c in n ==> forall k :: 0 <= k < height ==> Col(n, d, c)[k] != Null)
  }

  /** The typed columns of a frame after the parse and age steps:
      `stop_date`, `stop_time` and `driver_age` hold only dates, times and
      integers, or nulls. */
  predicate TypedColumns(n: seq<string>, d: seq<seq<Cell>>, height: nat)
    requires Wf(n, d, height)
  {
    && ("stop_date" in n ==> forall k :: 0 <= k < height ==> Col(n, d, "stop_date")[k].Day? || Col(n, d, "stop_date")[k].Null?)
    && ("stop_time" in n ==> forall k :: 0 <= k < height ==> Col(n, d, "stop_time")[k].Clock? || Col(n, d, "stop_time")[k].Null?)
    && ("driver_age" in n ==> forall k :: 0 <= k < height ==> Col(n, d, "driver_age")[k].Int? || Col(n, d, "driver_age")[k].Null?)
  }

  /** After cleaning, the frame has the normalised header plus the derived
      columns, and `violation` exists wherever `violation_raw` does. */
  lemma CleanedShape(header: seq<string>, columns: seq<seq<Cell>>, height: nat, parseDate: Cell -> Option<Date>,
                        parseTime: Cell -> Option<Time>, toNumber: Cell -> Option<int>)
    requires Wf(header, columns, height)
    ensures var (n, d) := Cleaned(header, columns, parseDate, parseTime, toNumber);
      && Wf(n, d, height) && CleanShape(header, n)
  {
    AgedSpec(header, columns, height, parseDate, parseTime, toNumber);
    DerivedSpec(header, columns, height, parseDate, parseTime, toNumber);
    var (n', d') := Aged(header, columns, parseDate, parseTime, toNumber);
    var (n, d) := Derived(header, columns, parseDate, parseTime, toNumber);
    FillStepSpec(n, d, height);
    assert "violation" != "driver_age" && "violation_raw" != "driver_age";
    assert DerivesViolation(n') == DerivesViolation(header);
    forall c
      ensures c in n <==> Provided(header, c)
    {
      assert c in n' <==> c in header || (c == "driver_age" && DerivesAge(header));
    }
  }

  /** After cleaning every boolean column holds only booleans and nulls, and
      no text column has a missing cell. */
  lemma CleanedCells(header: seq<string>, columns: seq<seq<Cell>>, height: nat, parseDate: Cell -> Option<Date>,
                        parseTime: Cell -> Option<Time>, toNumber: Cell -> Option<int>)
    requires Wf(header, columns, height)
    ensures var (n, d) := Cleaned(header, columns, parseDate, parseTime, toNumber);
      && Wf(n, d, height) && CleanCells(n, d, height)
  {
    DerivedSpec(header, columns, height, parseDate, parseTime, toNumber);
    var (n, d) := Derived(header, columns, parseDate, parseTime, toNumber);
    FillStepSpec(n, d, height);
    ColumnListsDisjoint();
    var d' := FillStep(n, d);
    forall c | c in BoolCols && c in n
      ensures forall k :: 0 <= k < height ==> Col(n, d', c)[k].Bool? || Col(n, d', c)[k].Null?
    {
      assert c !in TextCols;
      assert Col(n, d', c) == Col(n, d, c);
    }
  }

  /** A frame that keeps the typed columns of another keeps their typing. */
  lemma TypedColumnsKept(n': seq<string>, d': seq<seq<Cell>>, n: seq<string>, d: seq<seq<Cell>>, height: nat)
    requires Wf(n', d', height) && Wf(n, d, height) && TypedColumns(n', d', height)
    requires forall c :: c in n && c in ["stop_date", "stop_time", "driver_age"] ==> c in n' && Col(n, d, c) == Col(n', d', c)
    ensures TypedColumns(n, d, height)
  {
    assert "stop_date" in ["stop_date", "stop_time", "driver_age"];
    assert "stop_time" in ["stop_date", "stop_time", "driver_age"];
    assert "driver_age" in ["stop_date", "stop_time", "driver_age"];
  }

  /** After cleaning the date, time and age columns hold only values of their
      type or nulls. */
  lemma CleanedTyped(header: seq<string>, columns: seq<seq<Cell>>, height: nat, parseDate: Cell -> Option<Date>,
                        parseTime: Cell -> Option<Time>, toNumber: Cell -> Option<int>)
    requires Wf(header, columns, height)
    ensures var (n, d) := Cleaned(header, columns, parseDate, parseTime, toNumber);
      && Wf(n, d, height) && TypedColumns(n, d, height)
  {
    AgedSpec(header, columns, height, parseDate, parseTime, toNumber);
    DerivedSpec(header, columns, height, parseDate, parseTime, toNumber);
    var (n', d') := Aged(header, columns, parseDate, parseTime, toNumber);
    var (n, d) := Derived(header, columns, parseDate, parseTime, toNumber);
    FillStepSpec(n, d, height);
    ColumnListsDisjoint();
    var d'' := FillStep(n, d);
    forall c | c in n && c in ["stop_date", "stop_time", "driver_age"]
      ensures c in n' && Col(n, d'', c) == Col(n', d', c)
    {
      assert c != "violation";
      assert c !in TextCols && c !in BoolCols;
      assert Col(n, d'', c) == Col(n, d, c);
    }
    TypedColumnsKept(n', d', n, d'', height);
  }


  /** After cleaning, the frame has the normalised header plus the derived
      columns, `violation` exists wherever `violation_raw` does, every boolean
      column holds only booleans and nulls, no text column has a missing
      cell, and the date, time and age columns hold only values of their type
      or nulls. */
  lemma CleanedSpec(header: seq<string>, columns: seq<seq<Cell>>, height: nat, parseDate: Cell -> Option<Date>,
                        parseTime: Cell -> Option<Time>, toNumber: Cell -> Option<int>)
    requires Wf(header, columns, height)
    ensures var (n, d) := Cleaned(header, columns, parseDate, parseTime, toNumber);
      && Wf(n, d, height) && CleanShape(header, n) && CleanCells(n, d, height) && TypedColumns(n, d, height)
  {
    CleanedShape(header, columns, height, parseDate, parseTime, toNumber);
    CleanedCells(header, columns, height, parseDate, parseTime, toNumber);
    CleanedTyped(header, columns, height, parseDate, parseTime, toNumber);
  }

  /** The violation step keeps the cleaned boolean columns as they were. */
  lemma BooleansSurviveDerive(names: seq<string>, data: seq<seq<Cell>>, height: nat)
    requires Wf(names, data, height)
    requires forall c :: c in BoolCols && c in names ==>
      forall k :: 0 <= k < height ==> Col(names, data, c)[k].Bool? || Col(names, data, c)[k].Null?
    ensures var (n, d) := ViolationStep(names, data);
      forall c :: c in BoolCols && c in n ==>
        forall k :: 0 <= k < height ==> Col(n, d, c)[k].Bool? || Col(n, d, c)[k].Null?
  {
    ViolationStepSpec(names, data, height);
  }

  /** Completion and projection after cleaning: the rows the script hands to
      `executemany`, for a frame whose normalised header is `header`. */
  function Load(header: seq<string>, columns: seq<seq<Cell>>, height: nat, parseDate: Cell -> Option<Date>,
                parseTime: Cell -> Option<Time>, toNumber: Cell -> Option<int>): seq<seq<Cell>>
    requires Wf(header, columns, height)
  {
    CleanedSpec(header, columns, height, parseDate, parseTime, toNumber);
    var (n, d) := Cleaned(header, columns, parseDate, parseTime, toNumber);
    CompletedSpec(n, d, height, SqlColumns);
    var (n', d') := Completed(n, d, height, SqlColumns, |SqlColumns|);
    Rows(n', d', height)
  }

  /** Every loaded row has one cell per table column. A boolean column's cell
      is a boolean or null, a text column's cell is never null when the file
      provided that column, and a column the file did not provide is null
      throughout; otherwise the cell is the cleaned column's cell. */
  lemma LoadSpec(header: seq<string>, columns: seq<seq<Cell>>, height: nat, parseDate: Cell -> Option<Date>,
                 parseTime: Cell -> Option<Time>, toNumber: Cell -> Option<int>)
    requires Wf(header, columns, height)
    ensures var rows := Load(header, columns, height, parseDate, parseTime, toNumber);
      && |rows| == height
      && (forall i :: 0 <= i < height ==> |rows[i]| == 16)
      && (forall i, k :: 0 <= i < height && 0 <= k < 16 ==> LoadedCell(header, columns, height, parseDate, parseTime, toNumber, rows[i][k], i, k))
  {
    CleanedSpec(header, columns, height, parseDate, parseTime, toNumber);
    var (n, d) := Cleaned(header, columns, parseDate, parseTime, toNumber);
    CompletedSpec(n, d, height, SqlColumns);
    var (n', d') := Completed(n, d, height, SqlColumns, |SqlColumns|);
    RowsSpec(n', d', height);
    InsertMatchesTable();
    var rows := Rows(n', d', height);
    forall i, k | 0 <= i < height && 0 <= k < 16
      ensures LoadedCell(header, columns, height, parseDate, parseTime, toNumber, rows[i][k], i, k)
    {
      var c := SqlColumns[k];
      assert rows[i][k] == Col(n', d', c)[i];
      if c in n {
        assert Col(n', d', c) == Col(n, d, c);
      }
    }
  }

  /** What the loaded cell `x` in row `i`, column `k` is: null when the file
      did not provide the column, the cleaned column's cell otherwise; never
      null in a provided text column; a boolean or null in a boolean column. */
  predicate LoadedCell(header: seq<string>, columns: seq<seq<Cell>>, height: nat, parseDate: Cell -> Option<Date>,
                       parseTime: Cell -> Option<Time>, toNumber: Cell -> Option<int>, x: Cell, i: nat, k: nat)
    requires Wf(header, columns, height) && i < height && k < 16
  {
    CleanedSpec(header, columns, height, parseDate, parseTime, toNumber);
    var (n, d) := Cleaned(header, columns, parseDate, parseTime, toNumber);
    var c := SqlColumns[k];
    && (!Provided(header, c) ==> x == Null)
    && (Provided(header, c) ==> x == Col(n, d, c)[i])
    && (c in BoolCols ==> x.Bool? || x.Null?)
    && (c in TextCols && Provided(header, c) ==> x != Null)
  }

  // ---------------------------------------------------------------------
  // The data frame

  /** The frame `df`: column names in order and, parallel to them, the
      columns' cells; every column has `height` cells. */
  class Frame {
    var names: seq<string>
    var data: seq<seq<Cell>>
    var height: nat

    predicate Valid()
      reads this
    {
      Wf(names, data, height)
    }

    /** The frame as read from the CSV. */
    constructor (header: seq<string>, columns: seq<seq<Cell>>, rows: nat)
      requires Wf(header, columns, rows)
      ensures Valid() && names == header && data == columns && height == rows
    {
      names, data, height := header, columns, rows;
    }

    /** `df.columns = [c.strip().lower() for c in df.columns]`. */
    method NormaliseHeaders()
      requires Valid()
      modifies this
      ensures Valid() && data == old(data) && height == old(height)
      ensures names == NormalisedNames(old(names))
    {
      names := NormalisedNames(names);
    }

    /** `if c in df.columns: df[c] = df[c].<f>`, in place. */
    method ConvertColumn(c: string, f: Cell -> Cell)
      requires Valid()
      modifies this
      ensures Valid() && names == old(names) && height == old(height)
      ensures data == Convert(old(names), old(data), c, f)
    {
      ConvertSpec(names, data, height, c, f);
      if c in names {
        var j := IndexOf(names, c);
        data := data[j := MapCells(data[j], f)];
      }
    }

    /** `df[dst] = df[src].<f>`, adding the column `dst`. */
    method DeriveColumn(src: string, dst: string, f: Cell -> Cell)
      requires Valid() && src in names && dst !in names
      modifies this
      ensures Valid() && height == old(height)
      ensures (names, data) == Derive(old(names), old(data), src, dst, f)
    {
      DeriveSpec(names, data, height, src, dst, f);
      var raw := data[IndexOf(names, src)];
      names := names + [dst];
      data := data + [MapCells(raw, f)];
    }

    /** The age step. */
    method ResolveAge(toNumber: Cell -> Option<int>)
      requires Valid()
      modifies this
      ensures Valid() && height == old(height)
      ensures (names, data) == AgeStep(old(names), old(data), toNumber)
    {
      if "driver_age" !in names && "driver_age_raw" in names {
        DeriveColumn("driver_age_raw", "driver_age", NumberCell(toNumber));
      } else if "driver_age" in names {
        ConvertColumn("driver_age", NumberCell(toNumber));
      }
    }

    /** `for c in bool_cols: if c in df.columns: df[c] = df[c].map(bool_mapper)`. */
    method NormaliseBooleans()
      requires Valid()
      modifies this
      ensures Valid() && names == old(names) && height == old(height)
      ensures data == BoolStep(old(names), old(data))
    {
      ColumnListsDistinct();
      ghost var data0 := data;
      assert BoolCols[..0] == [];
      assert data == MapListed(names, data0, BoolCols[..0], NormaliseBool);
      var i := 0;
      while i < |BoolCols|
        invariant 0 <= i <= |BoolCols|
        invariant names == old(names) && height == old(height)
        invariant data == MapListed(names, data0, BoolCols[..i], NormaliseBool)
        invariant Valid()
      {
        var c := BoolCols[i];
        MapListedStep(names, data0, BoolCols, i, NormaliseBool);
        if c in names {
          var j := IndexOf(names, c);
          assert data[j] == data0[j];
          data := data[j := MapCells(data[j], NormaliseBool)];
        }
        i := i + 1;
      }
      assert BoolCols[..i] == BoolCols;
    }

    /** The violation step. */
    method DeriveViolation()
      requires Valid()
      modifies this
      ensures Valid() && height == old(height)
      ensures (names, data) == ViolationStep(old(names), old(data))
    {
      if "violation_raw" in names && "violation" !in names {
        DeriveColumn("violation_raw", "violation", ViolationCell);
      }
    }

    /** `for c in text_cols: if c in df.columns: df[c] = df[c].fillna('Unknown')`. */
    method FillText()
      requires Valid()
      modifies this
      ensures Valid() && names == old(names) && height == old(height)
      ensures data == FillStep(old(names), old(data))
    {
      ColumnListsDistinct();
      ghost var data0 := data;
      assert TextCols[..0] == [];
      assert data == MapListed(names, data0, TextCols[..0], FillCell);
      var i := 0;
      while i < |TextCols|
        invariant 0 <= i <= |TextCols|
        invariant names == old(names) && height == old(height)
        invariant data == MapListed(names, data0, TextCols[..i], FillCell)
        invariant Valid()
      {
        var c := TextCols[i];
        MapListedStep(names, data0, TextCols, i, FillCell);
        if c in names {
          var j := IndexOf(names, c);
          assert data[j] == data0[j];
          data := data[j := MapCells(data[j], FillCell)];
        }
        i := i + 1;
      }
      assert TextCols[..i] == TextCols;
    }

    /** Section 2 of the script, "DATA CLEANING", in place. */
    method Clean(parseDate: Cell -> Option<Date>, parseTime: Cell -> Option<Time>, toNumber: Cell -> Option<int>)
      requires Valid()
      modifies this
      ensures Valid() && height == old(height)
      ensures (names, data) == Cleaned(NormalisedNames(old(names)), old(data), parseDate, parseTime, toNumber)
    {
      NormaliseHeaders();
      ConvertColumn("stop_date", DayCell(parseDate));
      ConvertColumn("stop_time", ClockCell(parseTime));
      ResolveAge(toNumber);
      NormaliseBooleans();
      DeriveViolation();
      FillText();
    }

    /** `for col in sql_columns: if col not in df.columns: df[col] = None`. */
    method CompleteColumns()
      requires Valid()
      modifies this
      ensures Valid() && height == old(height)
      ensures (names, data) == Completed(old(names), old(data), height, SqlColumns, |SqlColumns|)
    {
      ColumnListsDistinct();
      AddMissing(SqlColumns);
    }

    /** The completion loop over any list of distinct column names. */
    method AddMissing(cs: seq<string>)
      requires Valid() && Distinct(cs)
      modifies this
      ensures Valid() && height == old(height)
      ensures (names, data) == Completed(old(names), old(data), height, cs, |cs|)
    {
      ghost var names0, data0 := names, data;
      CompletedStart(names0, data0, height, cs);
      var i := 0;
      while i < |cs|
        invariant 0 <= i <= |cs| && height == old(height)
        invariant (names, data) == Completed(names0, data0, height, cs, i)
        invariant Valid()
      {
        var col := cs[i];
        CompletedStep(names0, data0, height, cs, i);
        CompletedWf(names0, data0, height, cs, i + 1);
        if col !in names {
          names := names + [col];
          data := data + [seq(height, _ => Null)];
        }
        i := i + 1;
      }
    }
  }

  /** The script from the cleaning on: a frame over the file's header and
      columns is cleaned, completed to the table's columns and projected to
      the rows of the INSERT. */
  method Prepare(header: seq<string>, columns: seq<seq<Cell>>, height: nat, parseDate: Cell -> Option<Date>,
                 parseTime: Cell -> Option<Time>, toNumber: Cell -> Option<int>) returns (rows: seq<seq<Cell>>)
    requires Wf(header, columns, height)
    ensures rows == Load(NormalisedNames(header), columns, height, parseDate, parseTime, toNumber)
  {
    var df := new Frame(header, columns, height);
    df.Clean(parseDate, parseTime, toNumber);
    CleanedSpec(NormalisedNames(header), columns, height, parseDate, parseTime, toNumber);
    CompletedSpec(df.names, df.data, height, SqlColumns);
    df.CompleteColumns();
    rows := Rows(df.names, df.data, df.height);
  }
}
