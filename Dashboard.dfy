/** The dashboard streamlit_app.py: the filtered browse query it builds for
    the `checkpost_stops` table, and the CASE expressions of its analytics
    queries that put a stop into an age group, a duration midpoint and a
    period of the day. Query text and parameters are values here; running
    them against MySQL is not part of this model. */
module Dashboard {
  import opened Values
  import opened Text

  // ---------------------------------------------------------------------
  // The browse query

  /** A positional parameter of `cursor.execute(sql, params)`. */
  datatype Param = DateParam(d: Date) | TextParam(s: string) | IntParam(n: int)

  /** One sidebar filter: the column it tests, the selection made in its
      select box, and the parameter that selection is bound as. */
  datatype Filter = Filter(column: string, selection: string, param: Param)

  /** The select-box entry that switches a filter off. */
  const All: string := "All"

  const SelectAll: string := "SELECT * FROM checkpost_stops"
  const Between: string := " WHERE stop_date BETWEEN "
  const Sep: string := " AND "
  const OrderSuffix: string := " ORDER BY stop_date DESC limit 200"
  const OrderUnfiltered: string := " ORDER BY stop_date DESC LIMIT 200"

  /** The date-range query every filtered query starts with. */
  function DateRange(): string {
    SelectAll + (Between + (Marker + (Sep + Marker)))
  }

  /** The query used while the button has not been pressed. */
  function Unfiltered(): string {
    SelectAll + OrderUnfiltered
  }

  /** `" AND <col> = %s"`. */
  function Clause(col: string): (r: string)
    ensures |r| > 0 && r[0] == ' '
  {
    Sep + (col + (" = " + Marker))
  }

  /** The `search_conducted` parameter: 1 for the selection "True", 0 for
      any other. */
  function SearchFlagValue(selection: string): (r: int)
    ensures r == 1 <==> selection == "True"
    ensures r == 0 <==> selection != "True"
  {
    if selection == "True" then 1 else 0
  }

  /** The four filters in the order the script tests them. */
  function BrowseFilters(gender: string, violation: string, searchFlag: string, country: string): (fs: seq<Filter>) {
    [Filter("driver_gender", gender, TextParam(gender)),
     Filter("violation", violation, TextParam(violation)),
     Filter("search_conducted", searchFlag, IntParam(SearchFlagValue(searchFlag))),
     Filter("country_name", country, TextParam(country))]
  }

  /** The filters whose selection is not "All", in their order: a filter is
      kept exactly when it is one of `fs` and switched on. */
  function Selected(fs: seq<Filter>): (r: seq<Filter>)
    ensures |r| <= |fs|
    ensures forall f :: f in r <==> f in fs && f.selection != All
  {
    if fs == [] then []
    else Selected(fs[..|fs| - 1]) + (if fs[|fs| - 1].selection != All then [fs[|fs| - 1]] else [])
  }

  /** One clause per filter, in order. */
  function Clauses(fs: seq<Filter>): string {
    if fs == [] then "" else Clauses(fs[..|fs| - 1]) + Clause(fs[|fs| - 1].column)
  }

  /** One parameter per filter, in order. */
  function Args(fs: seq<Filter>): (r: seq<Param>)
    ensures |r| == |fs| && forall i :: 0 <= i < |fs| ==> r[i] == fs[i].param
  {
    seq(|fs|, i requires 0 <= i < |fs| => fs[i].param)
  }

  /** The filtered query for the filters `fs` that are switched on. */
  function BrowseText(fs: seq<Filter>): string {
    Partial(fs) + OrderSuffix
  }

  /** Its parameters: the two dates, then one per filter switched on. */
  function BrowseArgs(start: Date, end: Date, fs: seq<Filter>): seq<Param> {
    [DateParam(start), DateParam(end)] + Args(fs)
  }

  /** The browse page's filtered query and its parameters: the date range,
      then each filter that is not "All" adds its clause and its parameter,
      tested in the order gender, violation, search_conducted, country; then
      the fixed ordering and limit. */
  method FilteredQuery(start: Date, end: Date, gender: string, violation: string, searchFlag: string,
                       country: string) returns (query: string, ps: seq<Param>)
    ensures var on := Selected(BrowseFilters(gender, violation, searchFlag, country));
      query == BrowseText(on) && ps == BrowseArgs(start, end, on)
  {
    var f0 := Filter("driver_gender", gender, TextParam(gender));
    var f1 := Filter("violation", violation, TextParam(violation));
    var f2 := Filter("search_conducted", searchFlag, IntParam(if searchFlag == "True" then 1 else 0));
    var f3 := Filter("country_name", country, TextParam(country));
    query := DateRange();
    ps := [DateParam(start), DateParam(end)];
    assert query == Partial([]);
    query, ps := Narrow(start, end, [], query, ps, f0);
    assert [] + Keep(f0) == Keep(f0);
    query, ps := Narrow(start, end, Keep(f0), query, ps, f1);
    query, ps := Narrow(start, end, Keep(f0) + Keep(f1), query, ps, f2);
    query, ps := Narrow(start, end, Keep(f0) + Keep(f1) + Keep(f2), query, ps, f3);
    query := query + OrderSuffix;
    SelectedFour(f0, f1, f2, f3);
    assert BrowseFilters(gender, violation, searchFlag, country) == [f0, f1, f2, f3];
  }

  /** One `if selection != "All"` block of the browse page: when the filter
      is switched on, the query built so far for the filters `on` becomes the
      query for `on` followed by this filter. */
  method Narrow(ghost start: Date, ghost end: Date, ghost on: seq<Filter>, query: string, ps: seq<Param>, f: Filter)
    returns (next: string, nextPs: seq<Param>)
    requires query == Partial(on) && ps == BrowseArgs(start, end, on)
    ensures next == Partial(on + Keep(f)) && nextPs == BrowseArgs(start, end, on + Keep(f))
  {
    next, nextPs := query, ps;
    if f.selection != All {
      next := next + Clause(f.column);
      nextPs := nextPs + [f.param];
    }
    AddFilter(DateRange(), start, end, on, f);
  }

  /** What the browse page runs: the filtered query once the button has been
      pressed, and otherwise the fixed unfiltered query with no parameters. */
  method BrowseQuery(run: bool, start: Date, end: Date, gender: string, violation: string, searchFlag: string,
                     country: string) returns (sql: string, params: seq<Param>)
    ensures var on := Selected(BrowseFilters(gender, violation, searchFlag, country));
      run ==> sql == BrowseText(on) && params == BrowseArgs(start, end, on)
    ensures !run ==> sql == Unfiltered() && params == []
  {
    var query, ps := FilteredQuery(start, end, gender, violation, searchFlag, country);
    if run {
      sql, params := query, ps;
    } else {
      sql, params := Unfiltered(), [];
    }
  }

  /** The query text before its ordering suffix. */
  function Partial(fs: seq<Filter>): string {
    DateRange() + Clauses(fs)
  }

  /** Letting one more filter through adds its clause and its parameter at
      the end when it is switched on, and nothing otherwise. */
  lemma AddFilter(pre: string, start: Date, end: Date, fs: seq<Filter>, f: Filter)
    ensures pre + Clauses(fs + Keep(f)) == pre + Clauses(fs) + (if f.selection != All then Clause(f.column) else "")
    ensures BrowseArgs(start, end, fs + Keep(f))
         == BrowseArgs(start, end, fs) + (if f.selection != All then [f.param] else [])
  {
    AddClause(pre, fs, f);
    AddArg(start, end, fs, f);
  }

  lemma AddClause(pre: string, fs: seq<Filter>, f: Filter)
    ensures pre + Clauses(fs + Keep(f)) == pre + Clauses(fs) + (if f.selection != All then Clause(f.column) else "")
  {
    if f.selection != All {
      assert (fs + [f])[..|fs|] == fs;
    } else {
      assert fs + Keep(f) == fs;
    }
  }

  lemma AddArg(start: Date, end: Date, fs: seq<Filter>, f: Filter)
    ensures BrowseArgs(start, end, fs + Keep(f))
         == BrowseArgs(start, end, fs) + (if f.selection != All then [f.param] else [])
  {
    if f.selection == All {
      assert fs + Keep(f) == fs;
    }
  }

  /** The filter `f` if it is switched on. */
  function Keep(f: Filter): seq<Filter> {
    if f.selection != All then [f] else []
  }

  lemma SelectedSnoc(fs: seq<Filter>, f: Filter)
    ensures Selected(fs + [f]) == Selected(fs) + Keep(f)
  {
    assert (fs + [f])[..|fs|] == fs;
  }

  /** Selecting among four filters, spelled out. */
  lemma SelectedFour(f0: Filter, f1: Filter, f2: Filter, f3: Filter)
    ensures Selected([f0, f1, f2, f3]) == Keep(f0) + Keep(f1) + Keep(f2) + Keep(f3)
  {
    SelectedThree(f0, f1, f2);
    assert [f0, f1, f2, f3] == [f0, f1, f2] + [f3];
    SelectedSnoc([f0, f1, f2], f3);
  }

  lemma SelectedThree(f0: Filter, f1: Filter, f2: Filter)
    ensures Selected([f0, f1, f2]) == Keep(f0) + Keep(f1) + Keep(f2)
  {
    SelectedTwo(f0, f1);
    assert [f0, f1, f2] == [f0, f1] + [f2];
    SelectedSnoc([f0, f1], f2);
  }

  lemma SelectedTwo(f0: Filter, f1: Filter)
    ensures Selected([f0, f1]) == Keep(f0) + Keep(f1)
  {
    assert [f0] == [] + [f0];
    SelectedSnoc([], f0);
    assert [f0, f1] == [f0] + [f1];
    SelectedSnoc([f0], f1);
  }

  // ---------------------------------------------------------------------
  // Properties of the browse query

  /** The fixed pieces of query text hold no '%'. */
  lemma FixedTextPlain()
    ensures '%' !in SelectAll && '%' !in Between && '%' !in Sep && '%' !in " = "
    ensures '%' !in OrderSuffix && '%' !in OrderUnfiltered
    ensures OrderSuffix[0] == ' ' && Between[0] == ' '
  {
  }

  /** No filter column holds a '%'. */
  lemma BrowseFiltersPlain(gender: string, violation: string, searchFlag: string, country: string)
    ensures forall f :: f in BrowseFilters(gender, violation, searchFlag, country) ==> '%' !in f.column
    ensures forall f :: f in Selected(BrowseFilters(gender, violation, searchFlag, country)) ==> '%' !in f.column
  {
    var fs := BrowseFilters(gender, violation, searchFlag, country);
    assert '%' !in "driver_gender" && '%' !in "violation" && '%' !in "search_conducted" && '%' !in "country_name";
    assert forall f :: f in fs ==> f == fs[0] || f == fs[1] || f == fs[2] || f == fs[3];
  }

  /** The date range binds exactly the two dates. */
  lemma DateRangePlaceholders()
    ensures Placeholders(DateRange()) == 2
    ensures |DateRange()| > 0 && DateRange()[|DateRange()| - 1] == 's'
  {
    FixedTextPlain();
    PlainBefore(Sep, Marker);
    assert Marker[1] == 's' && Sep[0] == ' ';
    PlaceholdersAppend(Marker, Sep + Marker);
    PlainBefore(Between, Marker + (Sep + Marker));
    PlainBefore(SelectAll, Between + (Marker + (Sep + Marker)));
  }

  /** A clause binds exactly one parameter. */
  lemma ClausePlaceholders(col: string)
    requires '%' !in col
    ensures Placeholders(Clause(col)) == 1
  {
    FixedTextPlain();
    PlainBefore(" = ", Marker);
    PlainBefore(col, " = " + Marker);
    PlainBefore(Sep, col + (" = " + Marker));
  }

  /** The clauses bind one parameter per filter. */
  lemma {:induction false} ClausesPlaceholders(fs: seq<Filter>)
    requires forall f :: f in fs ==> '%' !in f.column
    ensures Placeholders(Clauses(fs)) == |fs|
    ensures Clauses(fs) == [] || Clauses(fs)[0] == ' '
  {
    if fs != [] {
      var init := fs[..|fs| - 1];
      assert forall f :: f in init ==> f in fs;
      ClausesPlaceholders(init);
      ClausePlaceholders(fs[|fs| - 1].column);
      PlaceholdersAppend(Clauses(init), Clause(fs[|fs| - 1].column));
    }
  }

  /** Placeholders match parameters one for one, for every choice of filters. */
  lemma BrowsePlaceholders(fs: seq<Filter>)
    requires forall f :: f in fs ==> '%' !in f.column
    ensures forall start, end :: Placeholders(BrowseText(fs)) == |BrowseArgs(start, end, fs)|
  {
    FixedTextPlain();
    DateRangePlaceholders();
    ClausesPlaceholders(fs);
    Framed(DateRange(), Clauses(fs), OrderSuffix);
  }

  /** Text between a prefix ending in 's' and a '%'-free suffix starting
      with a space: the placeholders of the whole are those of the prefix
      and the middle. */
  lemma Framed(pre: string, mid: string, suf: string)
    requires |pre| > 0 && pre[|pre| - 1] == 's'
    requires mid == [] || mid[0] == ' '
    requires '%' !in suf && |suf| > 0 && suf[0] == ' '
    ensures Placeholders(pre + mid + suf) == Placeholders(pre) + Placeholders(mid)
  {
    PlaceholdersAppend(pre, mid);
    PlaceholdersNone(suf);
    PlaceholdersAppend(pre + mid, suf);
  }

  /** The browse query binds one parameter per placeholder. */
  lemma BrowseQueryPlaceholders(start: Date, end: Date, gender: string, violation: string, searchFlag: string, country: string)
    ensures var on := Selected(BrowseFilters(gender, violation, searchFlag, country));
      Placeholders(BrowseText(on)) == |BrowseArgs(start, end, on)|
  {
    BrowseFiltersPlain(gender, violation, searchFlag, country);
    BrowsePlaceholders(Selected(BrowseFilters(gender, violation, searchFlag, country)));
  }

  /** Every filtered query starts with the date range and ends with the
      fixed ordering and limit; between them stand the clauses, in order. */
  lemma BrowseTextShape(fs: seq<Filter>)
    ensures DateRange() <= BrowseText(fs)
    ensures |BrowseText(fs)| >= |OrderSuffix|
    ensures BrowseText(fs)[|BrowseText(fs)| - |OrderSuffix|..] == OrderSuffix
    ensures BrowseText(fs)[|DateRange()|..|BrowseText(fs)| - |OrderSuffix|] == Clauses(fs)
  {
    var t := BrowseText(fs);
    assert t == DateRange() + Clauses(fs) + OrderSuffix;
    assert t[..|DateRange()|] == DateRange();
  }

  /** The unfiltered query has no parameter. */
  lemma UnfilteredPlain()
    ensures Placeholders(Unfiltered()) == 0
  {
    FixedTextPlain();
    PlainBefore(SelectAll, OrderUnfiltered);
    PlaceholdersNone(OrderUnfiltered);
  }

  /** The clauses depend on the filters' columns only, never on the values
      selected. */
  lemma {:induction false} ClausesIgnoreValues(fs: seq<Filter>, gs: seq<Filter>)
    requires |fs| == |gs| && forall i :: 0 <= i < |fs| ==> fs[i].column == gs[i].column
    ensures Clauses(fs) == Clauses(gs)
  {
    if fs != [] {
      ClausesIgnoreValues(fs[..|fs| - 1], gs[..|gs| - 1]);
    }
  }

  /** The query text depends only on which filters are not "All": two sets of
      selections that switch on the same filters give the same text. */
  lemma TextIgnoresValues(g1: string, v1: string, s1: string, c1: string, g2: string, v2: string, s2: string, c2: string)
    requires (g1 == All <==> g2 == All) && (v1 == All <==> v2 == All)
    requires (s1 == All <==> s2 == All) && (c1 == All <==> c2 == All)
    ensures BrowseText(Selected(BrowseFilters(g1, v1, s1, c1))) == BrowseText(Selected(BrowseFilters(g2, v2, s2, c2)))
  {
    var fs, gs := BrowseFilters(g1, v1, s1, c1), BrowseFilters(g2, v2, s2, c2);
    SelectedSameColumns(fs, gs);
    ClausesIgnoreValues(Selected(fs), Selected(gs));
  }

  /** Filters on the same columns, switched on and off alike, select filters
      on the same columns. */
  lemma {:induction false} SelectedSameColumns(fs: seq<Filter>, gs: seq<Filter>)
    requires |fs| == |gs|
    requires forall i :: 0 <= i < |fs| ==> fs[i].column == gs[i].column
    requires forall i :: 0 <= i < |fs| ==> (fs[i].selection == All <==> gs[i].selection == All)
    ensures |Selected(fs)| == |Selected(gs)|
    ensures forall i :: 0 <= i < |Selected(fs)| ==> Selected(fs)[i].column == Selected(gs)[i].column
  {
    if fs != [] {
      var fi, gi := fs[..|fs| - 1], gs[..|gs| - 1];
      var f, g := fs[|fs| - 1], gs[|gs| - 1];
      SelectedSameColumns(fi, gi);
      assert Selected(fs) == Selected(fi) + Keep(f);
      assert Selected(gs) == Selected(gi) + Keep(g);
      SameColumnsSnoc(Selected(fi), Selected(gi), Keep(f), Keep(g));
    }
  }

  /** Appending filters on the same columns to filters on the same columns. */
  lemma SameColumnsSnoc(a: seq<Filter>, b: seq<Filter>, x: seq<Filter>, y: seq<Filter>)
    requires |a| == |b| && forall i :: 0 <= i < |a| ==> a[i].column == b[i].column
    requires |x| == |y| && forall i :: 0 <= i < |x| ==> x[i].column == y[i].column
    ensures |a + x| == |b + y| && forall i :: 0 <= i < |a + x| ==> (a + x)[i].column == (b + y)[i].column
  {
  }

  /** Each filter that is switched on contributes exactly one parameter, its
      own, in the fixed order; with every filter on "All" the query is the
      date range with the suffix and binds the two dates only. */
  lemma BrowseArgsSpec(start: Date, end: Date, gender: string, violation: string, searchFlag: string, country: string)
    ensures var on := Selected(BrowseFilters(gender, violation, searchFlag, country));
      var args := BrowseArgs(start, end, on);
      && args[..2] == [DateParam(start), DateParam(end)]
      && |args| == 2 + (if gender != All then 1 else 0) + (if violation != All then 1 else 0)
                     + (if searchFlag != All then 1 else 0) + (if country != All then 1 else 0)
      && (searchFlag != All ==> IntParam(SearchFlagValue(searchFlag)) in args)
      && (gender == All && violation == All && searchFlag == All && country == All ==>
            BrowseText(on) == DateRange() + OrderSuffix && args == [DateParam(start), DateParam(end)])
  {
    var fs := BrowseFilters(gender, violation, searchFlag, country);
    SelectedFour(fs[0], fs[1], fs[2], fs[3]);
    var on := Selected(fs);
    if searchFlag != All {
      assert fs[2] in on;
      assert IntParam(SearchFlagValue(searchFlag)) in Args(on);
    }
  }

  // ---------------------------------------------------------------------
  // CASE classifiers under SQL NULL semantics

  /** SQL's three truth values. */
  datatype Truth = True | False | Unknown

  /** Kleene conjunction: false wins, then unknown. */
  function And(a: Truth, b: Truth): Truth {
    if a == False || b == False then False
    else if a == Unknown || b == Unknown then Unknown
    else True
  }

  function Of(b: bool): Truth {
    if b then True else False
  }

  /** `x < k`, `x <= k`, `x >= k` and `x BETWEEN lo AND hi` on a nullable
      integer. */
  function Lt(x: Option<int>, k: int): Truth {
    if x.None? then Unknown else Of(x.value < k)
  }

  function Le(x: Option<int>, k: int): Truth {
    if x.None? then Unknown else Of(x.value <= k)
  }

  function Ge(x: Option<int>, k: int): Truth {
    if x.None? then Unknown else Of(x.value >= k)
  }

  function InRange(x: Option<int>, lo: int, hi: int): Truth {
    And(Ge(x, lo), Le(x, hi))
  }

  /** `x = 'lit'` on a nullable string. */
  function Eq(x: Option<string>, lit: string): Truth {
    if x.None? then Unknown else Of(x.value == lit)
  }

  /** The labels of the age groups. */
  const Under20: string := "Under 20"
  const Twenties: string := "20-29"
  const Thirties: string := "30-39"
  const Over40: string := "40+"

  lemma AgeLabelsDistinct()
    ensures Under20 != Twenties && Under20 != Thirties && Under20 != Over40
    ensures Twenties != Thirties && Twenties != Over40 && Thirties != Over40
  {
    assert Twenties[0] != Thirties[0];
  }

  /** The age group of the arrest-rate query. A `WHEN` is taken only when its
      condition is true, so a NULL age falls through to the `ELSE`. */
  function AgeGroup(age: Option<int>): (r: string)
    ensures r == Under20 <==> age.Some? && age.value < 20
    ensures r == Twenties <==> age.Some? && 20 <= age.value <= 29
    ensures r == Thirties <==> age.Some? && 30 <= age.value <= 39
    ensures r == Over40 <==> age.None? || age.value >= 40
  {
    AgeLabelsDistinct();
    if Lt(age, 20) == True then Under20
    else if InRange(age, 20, 29) == True then Twenties
    else if InRange(age, 30, 39) == True then Thirties
    else Over40
  }

  /** The midpoint in minutes of a `stop_duration` bucket; any other text,
      and NULL, give NULL. */
  function DurationMidpoint(duration: Option<string>): (r: Option<real>)
    ensures r == Some(7.5) <==> duration == Some("0-15 Min")
    ensures r == Some(23.0) <==> duration == Some("16-30 Min")
    ensures r == Some(45.0) <==> duration == Some("30+ Min")
    ensures r.None? <==> duration !in {Some("0-15 Min"), Some("16-30 Min"), Some("30+ Min")}
  {
    if Eq(duration, "0-15 Min") == True then Some(7.5)
    else if Eq(duration, "16-30 Min") == True then Some(23.0)
    else if Eq(duration, "30+ Min") == True then Some(45.0)
    else None
  }

  const Daytime: string := "Daytime (6AM-6PM)"
  const Nighttime: string := "Nighttime (6PM-6AM)"

  /** `HOUR(stop_time)`, NULL for a NULL time. */
  function Hour(t: Option<Time>): Option<int> {
    if t.None? then None else Some(t.value.hour)
  }

  /** The period of the night-arrest query: daytime exactly when the hour is
      known and in [6, 18); a NULL time is night. */
  function Period(t: Option<Time>): (r: string)
    ensures r == Daytime <==> t.Some? && 6 <= t.value.hour < 18
    ensures r == Nighttime <==> t.None? || t.value.hour < 6 || t.value.hour >= 18
  {
    if And(Ge(Hour(t), 6), Lt(Hour(t), 18)) == True then Daytime else Nighttime
  }
}
