/** Merging a module's rows into the shared help table. */
module HelpMerge {
  import opened Options

  type Row = seq<string>

  /** str.isspace() */
  predicate IsSpace(c: char) {
    || '\t' <= c <= '\r' || '\U{1C}' <= c <= ' ' || c == '\U{85}' || c == '\U{A0}' || c == '\U{1680}'
    || '\U{2000}' <= c <= '\U{200A}' || c == '\U{2028}' || c == '\U{2029}' || c == '\U{202F}'
    || c == '\U{205F}' || c == '\U{3000}'
  }

  /** str.strip() */
  function Strip(s: string): string
    decreases |s|
  {
    if s == "" then ""
    else if IsSpace(s[0]) then Strip(s[1..])
    else if IsSpace(s[|s| - 1]) then Strip(s[..|s| - 1])
    else s
  }

  /** The module code a row carries; none if the row is empty. */
  function CodeOf(row: Row): Option<string> {
    if row == [] then None else Some(Strip(row[0]))
  }

  predicate Carries(row: Row, codes: set<string>) {
    CodeOf(row).Some? && CodeOf(row).value in codes
  }

  predicate IsCoded(row: Row) {
    CodeOf(row).Some? && CodeOf(row).value != ""
  }

  function Codes(rows: seq<Row>): (r: set<string>)
    ensures forall row :: row in rows && IsCoded(row) ==> CodeOf(row).value in r
    ensures "" !in r
  {
    set row | row in rows && IsCoded(row) :: CodeOf(row).value
  }

  /** The rows that carry none of the codes, in order. */
  function Keep(rows: seq<Row>, codes: set<string>): seq<Row> {
    if rows == [] then []
    else (if Carries(rows[0], codes) then [] else [rows[0]]) + Keep(rows[1..], codes)
  }

  function Merged(target: seq<Row>, source: seq<Row>): seq<Row> {
    Keep(target, Codes(source)) + source
  }

  datatype Report = Report(rows: seq<Row>, removed: int) | NothingToMerge

  method ExtractModuleCodes(rows: seq<Row>) returns (codes: set<string>)
    ensures codes == Codes(rows)
  {
    codes := {};
    for i := 0 to |rows|
      invariant codes == Codes(rows[..i])
    {
      assert rows[..i + 1] == rows[..i] + [rows[i]];
      if IsCoded(rows[i]) {
        codes := codes + {CodeOf(rows[i]).value};
      }
    }
    assert rows[..|rows|] == rows;
  }

  /** Codes are removed one at a time, in whatever order the set yields them. */
  method Merge(target: seq<Row>, source: seq<Row>) returns (r: Report)
    ensures r.NothingToMerge? <==> forall row :: row in source ==> !IsCoded(row)
    ensures r.Report? ==> r.rows == Merged(target, source) && r.removed == |target| + |source| - |r.rows|
  {
    var codes := ExtractModuleCodes(source);
    if codes == {} {
      return NothingToMerge;
    }
    var filtered, removed := target, 0;
    var todo := codes;
    ghost var done: set<string> := {};
    KeepNone(target);
    while todo != {}
      invariant done + todo == codes
      invariant filtered == Keep(target, done)
      invariant removed == |target| - |filtered|
      decreases todo
    {
      var code :| code in todo;
      var before := |filtered|;
      KeepMore(target, done, {code});
      filtered := Keep(filtered, {code});
      removed := removed + (before - |filtered|);
      todo, done := todo - {code}, done + {code};
    }
    assert done == codes;
    r := Report(filtered + source, removed);
  }

  lemma {:induction false} KeepNone(rows: seq<Row>)
    ensures Keep(rows, {}) == rows
  {
    if rows != [] { KeepNone(rows[1..]); }
  }

  lemma {:induction false} KeepMore(rows: seq<Row>, a: set<string>, b: set<string>)
    ensures Keep(Keep(rows, a), b) == Keep(rows, a + b)
  {
    if rows != [] {
      KeepMore(rows[1..], a, b);
      KeepConcat(if Carries(rows[0], a) then [] else [rows[0]], Keep(rows[1..], a), b);
    }
  }

  lemma {:induction false} KeepConcat(x: seq<Row>, y: seq<Row>, codes: set<string>)
    ensures Keep(x + y, codes) == Keep(x, codes) + Keep(y, codes)
  {
    if x == [] {
      assert x + y == y;
    } else {
      assert (x + y)[1..] == x[1..] + y;
      KeepConcat(x[1..], y, codes);
    }
  }

  /** Rows of other modules, and rows without a code, stay as they were and in their order. */
  lemma OthersStay(target: seq<Row>, source: seq<Row>)
    ensures Keep(Merged(target, source), Codes(source)) == Keep(target, Codes(source)) + Keep(source, Codes(source))
  {
    KeepConcat(Keep(target, Codes(source)), source, Codes(source));
    KeepMore(target, Codes(source), Codes(source));
    assert Codes(source) + Codes(source) == Codes(source);
  }

  function RowsOf(rows: seq<Row>, code: string): seq<Row> {
    if rows == [] then []
    else (if CodeOf(rows[0]) == Some(code) then [rows[0]] else []) + RowsOf(rows[1..], code)
  }

  /** Of a merged module only the source rows remain. */
  lemma NoZombies(target: seq<Row>, source: seq<Row>, code: string)
    requires code in Codes(source)
    ensures RowsOf(Merged(target, source), code) == RowsOf(source, code)
  {
    KeptHasNone(target, Codes(source), code);
    RowsOfConcat(Keep(target, Codes(source)), source, code);
  }

  lemma {:induction false} KeptHasNone(rows: seq<Row>, codes: set<string>, code: string)
    requires code in codes
    ensures RowsOf(Keep(rows, codes), code) == []
  {
    if rows != [] {
      KeptHasNone(rows[1..], codes, code);
      RowsOfConcat(if Carries(rows[0], codes) then [] else [rows[0]], Keep(rows[1..], codes), code);
    }
  }

  lemma {:induction false} RowsOfConcat(x: seq<Row>, y: seq<Row>, code: string)
    ensures RowsOf(x + y, code) == RowsOf(x, code) + RowsOf(y, code)
  {
    if x == [] {
      assert x + y == y;
    } else {
      assert (x + y)[1..] == x[1..] + y;
      RowsOfConcat(x[1..], y, code);
    }
  }

  lemma {:induction false} AllCodedKeepsNone(rows: seq<Row>, codes: set<string>)
    requires "" !in codes && forall row :: row in rows && IsCoded(row) ==> CodeOf(row).value in codes
    ensures Keep(rows, codes) == [] <==> forall row :: row in rows ==> IsCoded(row)
  {
    if rows != [] {
      assert rows == [rows[0]] + rows[1..];
      assert rows[0] in rows;
      AllCodedKeepsNone(rows[1..], codes);
    }
  }

  /** Merging the same source twice equals merging it once exactly if every source row carries a code. */
  lemma MergeTwice(target: seq<Row>, source: seq<Row>)
    ensures Merged(Merged(target, source), source) == Merged(target, source)
            <==> forall row :: row in source ==> IsCoded(row)
  {
    OthersStay(target, source);
    AllCodedKeepsNone(source, Codes(source));
    var kept, again := Keep(target, Codes(source)), Keep(source, Codes(source));
    assert Merged(Merged(target, source), source) == kept + again + source;
    assert |kept + again + source| == |kept + source| + |again|;
    if again == [] {
      assert kept + again == kept;
    }
  }

  // ----- the merged table, row by row -----

  /** The white space of str.isspace(), by code point. */
  lemma SpaceExactly(c: char)
    ensures IsSpace(c) <==>
            c as int in [9, 10, 11, 12, 13, 28, 29, 30, 31, 32, 133, 160, 5760,
                         8192, 8193, 8194, 8195, 8196, 8197, 8198, 8199, 8200, 8201, 8202,
                         8232, 8233, 8239, 8287, 12288]
  {
  }

  ghost predicate Blank(s: string) {
    forall c :: c in s ==> IsSpace(c)
  }

  /** The code is the text without the white space around it. */
  ghost predicate IsTrimmed(s: string, code: string) {
    && (code != "" ==> !IsSpace(code[0]) && !IsSpace(code[|code| - 1]))
    && exists before, after :: s == before + code + after && Blank(before) && Blank(after)
  }

  lemma TrimmedFront(c: char, s: string, code: string)
    requires IsSpace(c) && IsTrimmed(s, code)
    ensures IsTrimmed([c] + s, code)
  {
    var before, after :| s == before + code + after && Blank(before) && Blank(after);
    assert [c] + s == ([c] + before) + code + after && Blank([c] + before);
  }

  lemma TrimmedBack(s: string, c: char, code: string)
    requires IsSpace(c) && IsTrimmed(s, code)
    ensures IsTrimmed(s + [c], code)
  {
    var before, after :| s == before + code + after && Blank(before) && Blank(after);
    assert s + [c] == before + code + (after + [c]) && Blank(after + [c]);
  }

  lemma {:induction false} StripTrims(s: string)
    ensures IsTrimmed(s, Strip(s))
    decreases |s|
  {
    if s == "" || (!IsSpace(s[0]) && !IsSpace(s[|s| - 1])) {
      assert s == "" + s + "" && Blank("");
    } else if IsSpace(s[0]) {
      StripTrims(s[1..]);
      assert s == [s[0]] + s[1..];
      TrimmedFront(s[0], s[1..], Strip(s[1..]));
    } else {
      var init := s[..|s| - 1];
      StripTrims(init);
      assert s == init + [s[|s| - 1]];
      TrimmedBack(init, s[|s| - 1], Strip(init));
    }
  }

  /** A trimmed text begins at the first character that is no white space. */
  lemma SameFront(s: string, a: string, before: string, after: string, b: string, before': string, after': string)
    requires s == before + a + after && Blank(before) && Blank(after)
    requires s == before' + b + after' && Blank(before') && Blank(after')
    requires a != "" ==> !IsSpace(a[0]) && !IsSpace(a[|a| - 1])
    requires b != "" ==> !IsSpace(b[0]) && !IsSpace(b[|b| - 1])
    requires a != ""
    ensures b != "" && |before'| <= |before| && |before| + |a| <= |before'| + |b|
  {
    var n := |before'| + |b|;
    assert forall k :: 0 <= k < |before'| ==> s[k] == before'[k];
    assert forall k :: n <= k < |s| ==> s[k] == after'[k - n];
    assert s[|before|] == a[0] && s[|before| + |a| - 1] == a[|a| - 1];
  }

  lemma TrimmedOnce(s: string, a: string, b: string)
    requires IsTrimmed(s, a) && IsTrimmed(s, b)
    ensures a == b
  {
    var before, after :| s == before + a + after && Blank(before) && Blank(after);
    var before', after' :| s == before' + b + after' && Blank(before') && Blank(after');
    if a != "" || b != "" {
      if a != "" { SameFront(s, a, before, after, b, before', after'); }
      if b != "" { SameFront(s, b, before', after', a, before, after); }
      assert a == s[|before|..|before| + |a|] && b == s[|before'|..|before'| + |b|];
    }
  }

  lemma StripExactly(s: string, code: string)
    ensures Strip(s) == code <==> IsTrimmed(s, code)
  {
    StripTrims(s);
    if IsTrimmed(s, code) { TrimmedOnce(s, code, Strip(s)); }
  }

  /** The row carries the code in its first cell. */
  ghost predicate HasCode(row: Row, code: string) {
    row != [] && code != "" && IsTrimmed(row[0], code)
  }

  lemma CodeExactly(row: Row, code: string)
    ensures HasCode(row, code) <==> IsCoded(row) && CodeOf(row) == Some(code)
  {
    if row != [] { StripExactly(row[0], code); }
  }

  lemma CodesExactly(rows: seq<Row>, code: string)
    ensures code in Codes(rows) <==> exists row :: row in rows && HasCode(row, code)
  {
    if code in Codes(rows) {
      var row :| row in rows && IsCoded(row) && CodeOf(row).value == code;
      CodeExactly(row, code);
    }
    if row :| row in rows && HasCode(row, code) {
      CodeExactly(row, code);
    }
  }

  /** The positions of the rows that are kept, in their order. */
  ghost predicate Selects(at: seq<nat>, rows: seq<Row>, kept: seq<Row>, codes: set<string>) {
    && |at| == |kept|
    && (forall i :: 0 <= i < |at| ==> at[i] < |rows| && kept[i] == rows[at[i]])
    && (forall i, j :: 0 <= i < j < |at| ==> at[i] < at[j])
    && (forall j :: 0 <= j < |rows| ==> (j in at <==> !Carries(rows[j], codes)))
  }

  /** One row more at the end. */
  lemma SelectsOneMore(at: seq<nat>, rows: seq<Row>, kept: seq<Row>, codes: set<string>, row: Row)
    requires Selects(at, rows, kept, codes)
    ensures if Carries(row, codes) then Selects(at, rows + [row], kept, codes)
            else Selects(at + [|rows|], rows + [row], kept + [row], codes)
  {
    assert |rows| !in at;
  }

  lemma {:induction false} KeepSelects(rows: seq<Row>, codes: set<string>) returns (at: seq<nat>)
    ensures Selects(at, rows, Keep(rows, codes), codes)
    decreases |rows|
  {
    at := [];
    if rows != [] {
      var init, row := rows[..|rows| - 1], rows[|rows| - 1];
      at := KeepSelects(init, codes);
      assert rows == init + [row];
      KeepConcat(init, [row], codes);
      assert Keep([row], codes) == if Carries(row, codes) then [] else [row];
      SelectsOneMore(at, init, Keep(init, codes), codes, row);
      if !Carries(row, codes) { at := at + [|init|]; }
    }
  }

  /** A row of the table stays exactly if no source row has its code; the source comes after, as it is. */
  lemma MergedExactly(target: seq<Row>, source: seq<Row>) returns (at: seq<nat>)
    ensures |Merged(target, source)| == |at| + |source| && Merged(target, source)[|at|..] == source
    ensures forall i :: 0 <= i < |at| ==> at[i] < |target| && Merged(target, source)[i] == target[at[i]]
    ensures forall i, j :: 0 <= i < j < |at| ==> at[i] < at[j]
    ensures forall j :: 0 <= j < |target| ==>
      (j in at <==> !exists code, row :: HasCode(target[j], code) && row in source && HasCode(row, code))
  {
    at := KeepSelects(target, Codes(source));
    forall j | 0 <= j < |target|
      ensures Carries(target[j], Codes(source)) <==>
              exists code, row :: HasCode(target[j], code) && row in source && HasCode(row, code)
    {
      CarriesExactly(target[j], source);
    }
  }

  lemma CarriesExactly(r: Row, source: seq<Row>)
    ensures Carries(r, Codes(source)) <==>
            exists code, row :: HasCode(r, code) && row in source && HasCode(row, code)
  {
    if Carries(r, Codes(source)) {
      var code := CodeOf(r).value;
      CodesExactly(source, code);
      CodeExactly(r, code);
    }
    if code, row :| HasCode(r, code) && row in source && HasCode(row, code) {
      CodesExactly(source, code);
      CodeExactly(r, code);
    }
  }
}
