/**
  The report records and the tab-separated report written from them
  (lib/analyze-bundle.js, lines 95-97, 103, 120-121 and 129-131), with a
  reader that splits the text the way `split("\n")` and `split("\t")` do and
  reads the fields back.
*/
module Reports {
  import opened Wrappers
  import opened JsString

  /** One entry of `mods`: the module's id, its name, its normalised identifier and its size. */
  datatype ModuleReport = ModuleReport(id: nat, name: string, iden: string, size: int)

  /** The column titles of the TSV report. */
  const HeaderRow := "Module ID" + "\t" + "Full Path" + "\t" + "Identity Path" + "\t" + "Size (bytes)"

  /** The initial value of the `reduce`: the column titles and a line break. */
  const TsvHeader := HeaderRow + "\n"

  /** The four fields of one record, separated by tabs. */
  function RowText(r: ModuleReport): string
  {
    NatToString(r.id) + "\t" + r.name + "\t" + r.iden + "\t" + IntToString(r.size)
  }

  /** `${m.id}\t${m.name}\t${m.iden}\t${m.size}\n` */
  function TsvLine(r: ModuleReport): string
  {
    RowText(r) + "\n"
  }

  /** The `reduce` callback applied to every record in turn, starting from `acc`. */
  function AppendLines(acc: string, rs: seq<ModuleReport>): string
  {
    if rs == [] then acc else AppendLines(acc, rs[..|rs| - 1]) + TsvLine(rs[|rs| - 1])
  }

  /** `mods.reduce((a, m) => a + line(m), header)`. */
  function Tsv(rs: seq<ModuleReport>): string
  {
    AppendLines(TsvHeader, rs)
  }

  /** `s.split(sep)` for a one-character separator: the pieces between separators, empty ones included. */
  function Split(s: string, sep: char): (r: seq<string>)
    ensures |r| >= 1
  {
    if s == [] then [""]
    else
      var init := Split(s[..|s| - 1], sep);
      if s[|s| - 1] == sep then init + [""]
      else init[..|init| - 1] + [init[|init| - 1] + [s[|s| - 1]]]
  }

  /** Reads a field written by `${n}` for a non-negative integer. */
  function ParseNat(f: string): Option<nat>
  {
    if f != [] && AllDigits(f) then Some(DigitsValue(f)) else None
  }

  /** Reads a field written by `${n}` for any integer. */
  function ParseInt(f: string): Option<int>
  {
    if f != [] && f[0] == '-' then
      match ParseNat(f[1..])
      case Some(n) => var v: int := n; Some(-v)
      case None => None
    else
      match ParseNat(f)
      case Some(n) => Some(n)
      case None => None
  }

  /** Reads one line of the report (without its line break) back into a record. */
  function ParseRow(line: string): Option<ModuleReport>
  {
    var f := Split(line, '\t');
    if |f| != 4 then None
    else match (ParseNat(f[0]), ParseInt(f[3]))
      case (Some(id), Some(size)) => Some(ModuleReport(id, f[1], f[2], size))
      case _ => None
  }

  function ParseRows(lines: seq<string>): Option<seq<ModuleReport>>
  {
    if lines == [] then Some([])
    else match (ParseRow(lines[0]), ParseRows(lines[1..]))
      case (Some(r), Some(rest)) => Some([r] + rest)
      case _ => None
  }

  /** Reads a whole report: the title line, one line per record, and the final line break. */
  function ParseTsv(t: string): Option<seq<ModuleReport>>
  {
    var lines := Split(t, '\n');
    if |lines| < 2 || lines[0] != HeaderRow || lines[|lines| - 1] != "" then None
    else ParseRows(lines[1..|lines| - 1])
  }

  /** A record whose name and identifier can be written without breaking the layout. */
  predicate Plain(r: ModuleReport)
  {
    '\t' !in r.name && '\n' !in r.name && '\t' !in r.iden && '\n' !in r.iden
  }

  function RowTexts(rs: seq<ModuleReport>): (ts: seq<string>)
    ensures |ts| == |rs|
  {
    seq(|rs|, i requires 0 <= i < |rs| => RowText(rs[i]))
  }

  /** A character other than the separator extends the last piece. */
  lemma SplitSnoc(s: string, c: char, sep: char)
    requires c != sep
    ensures var q := Split(s, sep); Split(s + [c], sep) == q[..|q| - 1] + [q[|q| - 1] + [c]]
  {
    var x := s + [c];
    assert x[..|x| - 1] == s;
  }

  /** Extending the last of a list of pieces twice extends it once by both parts. */
  lemma ExtendLast<T>(p: seq<seq<T>>, v: seq<T>, c: T)
    requires |p| >= 1
    ensures var q := p[..|p| - 1] + [p[|p| - 1] + v];
      q[..|q| - 1] + [q[|q| - 1] + [c]] == p[..|p| - 1] + [p[|p| - 1] + (v + [c])]
  {
    var q := p[..|p| - 1] + [p[|p| - 1] + v];
    assert q[..|q| - 1] == p[..|p| - 1];
    assert q[|q| - 1] + [c] == p[|p| - 1] + (v + [c]);
  }

  lemma SplitAppendStep(t: string, v: string, c: char, sep: char)
    requires c != sep
    requires var p := Split(t, sep); Split(t + v, sep) == p[..|p| - 1] + [p[|p| - 1] + v]
    ensures var p := Split(t, sep); Split(t + (v + [c]), sep) == p[..|p| - 1] + [p[|p| - 1] + (v + [c])]
  {
    SplitSnoc(t + v, c, sep);
    assert (t + v) + [c] == t + (v + [c]);
    ExtendLast(Split(t, sep), v, c);
  }

  /** Text without the separator joins the last piece. */
  lemma {:induction false} SplitAppend(t: string, u: string, sep: char)
    requires sep !in u
    ensures var p := Split(t, sep);
      Split(t + u, sep) == p[..|p| - 1] + [p[|p| - 1] + u]
    decreases |u|
  {
    var p := Split(t, sep);
    if u == [] {
      assert t + u == t;
      assert p[..|p| - 1] + [p[|p| - 1] + u] == p by {
        assert p[|p| - 1] + u == p[|p| - 1];
      }
    } else {
      var v, c := u[..|u| - 1], u[|u| - 1];
      assert c != sep by { assert c in u; }
      assert sep !in v;
      SplitAppend(t, v, sep);
      SplitAppendStep(t, v, c, sep);
      assert v + [c] == u;
    }
  }

  /** A separator at the end starts a new, empty piece. */
  lemma SplitSep(t: string, sep: char)
    ensures Split(t + [sep], sep) == Split(t, sep) + [""]
  {
    var s := t + [sep];
    assert s[..|s| - 1] == t;
  }

  /** Text without the separator is one piece. */
  lemma SplitPlain(u: string, sep: char)
    requires sep !in u
    ensures Split(u, sep) == [u]
  {
    SplitAppend("", u, sep);
    assert "" + u == u;
  }

  /** Appending a separator and then a plain piece adds exactly that piece. */
  lemma SplitField(t: string, u: string, sep: char)
    requires sep !in u
    ensures Split(t + [sep] + u, sep) == Split(t, sep) + [u]
  {
    SplitSep(t, sep);
    SplitAppend(t + [sep], u, sep);
    var p := Split(t, sep) + [""];
    assert p[..|p| - 1] == Split(t, sep);
    assert p[|p| - 1] + u == u;
  }

  /** Decimal digits hold neither a tab nor a line break. */
  lemma DigitsArePlain(s: string)
    requires AllDigits(s)
    ensures '\t' !in s && '\n' !in s
  {
  }

  lemma IntToStringPlain(i: int)
    ensures '\t' !in IntToString(i) && '\n' !in IntToString(i)
  {
    var d := NatToString(if i < 0 then -i else i);
    DigitsArePlain(d);
    if i < 0 {
      assert IntToString(i) == "-" + d;
      assert forall k :: 0 <= k < |"-" + d| ==> ("-" + d)[k] == '-' || ("-" + d)[k] in d;
    }
  }

  /** `${n}` read back gives `n`, for every integer. */
  lemma IntRoundTrip(i: int)
    ensures ParseInt(IntToString(i)) == Some(i)
  {
    if i < 0 {
      var s := "-" + NatToString(-i);
      assert s[1..] == NatToString(-i);
      NatToStringRoundTrip(-i);
    } else {
      NatToStringRoundTrip(i);
    }
  }

  /** The four fields of a record split apart at its three tabs. */
  lemma RowFields(r: ModuleReport)
    requires Plain(r)
    ensures Split(RowText(r), '\t') == [NatToString(r.id), r.name, r.iden, IntToString(r.size)]
  {
    var n := NatToString(r.id);
    var z := IntToString(r.size);
    DigitsArePlain(n);
    IntToStringPlain(r.size);
    SplitPlain(n, '\t');
    SplitField(n, r.name, '\t');
    SplitField(n + "\t" + r.name, r.iden, '\t');
    SplitField(n + "\t" + r.name + "\t" + r.iden, z, '\t');
  }

  /** One line of the report reads back as the record it was written from. */
  lemma RowRoundTrip(r: ModuleReport)
    requires Plain(r)
    ensures ParseRow(RowText(r)) == Some(r)
  {
    RowFields(r);
    NatToStringRoundTrip(r.id);
    IntRoundTrip(r.size);
  }

  /** With no records the report is the title line alone. */
  lemma HeaderLine()
    ensures Split(TsvHeader, '\n') == [HeaderRow] + [""]
  {
    assert '\n' !in HeaderRow;
    SplitPlain(HeaderRow, '\n');
    SplitSep(HeaderRow, '\n');
  }

  /** A record's line holds no line break of its own. */
  lemma RowTextPlain(r: ModuleReport)
    requires Plain(r)
    ensures '\n' !in RowText(r)
  {
    DigitsArePlain(NatToString(r.id));
    IntToStringPlain(r.size);
  }

  lemma RowTextsSnoc(rs: seq<ModuleReport>)
    requires rs != []
    ensures RowTexts(rs) == RowTexts(rs[..|rs| - 1]) + [RowText(rs[|rs| - 1])]
  {
    var a, b := RowTexts(rs), RowTexts(rs[..|rs| - 1]) + [RowText(rs[|rs| - 1])];
    forall i | 0 <= i < |rs| ensures a[i] == b[i] {
      if i < |rs| - 1 {
        assert rs[..|rs| - 1][i] == rs[i];
      }
    }
  }

  /** A line without a line break, and its line break, add one line before the empty last piece. */
  lemma AppendLine(t: string, row: string, q: seq<string>)
    requires Split(t, '\n') == q + [""]
    requires '\n' !in row
    ensures Split(t + (row + "\n"), '\n') == q + [row] + [""]
  {
    SplitAppend(t, row, '\n');
    SplitSep(t + row, '\n');
    assert t + (row + "\n") == t + row + "\n";
    var p := q + [""];
    assert p[..|p| - 1] == q;
    assert p[|p| - 1] + row == row;
  }

  lemma Regroup<T>(q: seq<T>, a: seq<T>, x: T, e: seq<T>)
    ensures q + a + [x] + e == q + (a + [x]) + e
  {
  }

  /** Each record appended adds its line before the empty piece after the last line break. */
  lemma {:induction false} AppendLinesLayout(acc: string, q: seq<string>, rs: seq<ModuleReport>)
    requires Split(acc, '\n') == q + [""]
    requires forall i :: 0 <= i < |rs| ==> Plain(rs[i])
    ensures Split(AppendLines(acc, rs), '\n') == q + RowTexts(rs) + [""]
    decreases |rs|
  {
    if rs == [] {
      assert q + RowTexts(rs) == q;
    } else {
      var init, r := rs[..|rs| - 1], rs[|rs| - 1];
      AppendLinesLayout(acc, q, init);
      RowTextPlain(r);
      assert AppendLines(acc, rs) == AppendLines(acc, init) + TsvLine(r);
      AppendLine(AppendLines(acc, init), RowText(r), q + RowTexts(init));
      RowTextsSnoc(rs);
      Regroup(q, RowTexts(init), RowText(r), [""]);
    }
  }

  /** The report is the title line, one line per record in order, and a final line break. */
  lemma TsvLayout(rs: seq<ModuleReport>)
    requires forall i :: 0 <= i < |rs| ==> Plain(rs[i])
    ensures Split(Tsv(rs), '\n') == [HeaderRow] + RowTexts(rs) + [""]
  {
    HeaderLine();
    AppendLinesLayout(TsvHeader, [HeaderRow], rs);
  }

  /** Lines that each read back as a record read back, together, as those records in order. */
  lemma {:induction false} ParseRowsEach(lines: seq<string>, rs: seq<ModuleReport>)
    requires |lines| == |rs|
    requires forall i :: 0 <= i < |lines| ==> ParseRow(lines[i]) == Some(rs[i])
    ensures ParseRows(lines) == Some(rs)
    decreases |lines|
  {
    if lines != [] {
      ParseRowsEach(lines[1..], rs[1..]);
      assert [rs[0]] + rs[1..] == rs;
    }
  }

  lemma RowsRoundTrip(rs: seq<ModuleReport>)
    requires forall i :: 0 <= i < |rs| ==> Plain(rs[i])
    ensures ParseRows(RowTexts(rs)) == Some(rs)
  {
    forall i | 0 <= i < |rs| ensures ParseRow(RowTexts(rs)[i]) == Some(rs[i]) {
      RowRoundTrip(rs[i]);
    }
    ParseRowsEach(RowTexts(rs), rs);
  }

  /** Reading the report back gives every record, in order, with its four fields. */
  lemma TsvRoundTrip(rs: seq<ModuleReport>)
    requires forall i :: 0 <= i < |rs| ==> Plain(rs[i])
    ensures ParseTsv(Tsv(rs)) == Some(rs)
  {
    TsvLayout(rs);
    var lines := [HeaderRow] + RowTexts(rs) + [""];
    assert lines[1..|lines| - 1] == RowTexts(rs);
    RowsRoundTrip(rs);
  }
}
