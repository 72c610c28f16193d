/**
 Worked inputs for the header de-duplication: a repeated name gets one
 marker, a name repeated three times gets none, one and two markers, and
 the data lines pass through untouched.
 */
module LoaderExamples {
  import opened Text
  import opened Loader

  /** Splitting a text that is a join of line-free parts gives the parts back. */
  lemma LinesOf(csv: string, lines: seq<string>)
    requires |lines| >= 1 && forall k :: 0 <= k < |lines| ==> Newline !in lines[k]
    requires Join(lines, Newline) == csv
    ensures Lines(csv) == lines
  {
    SplitJoin(lines, Newline);
  }

  /** Splitting a line that is a join of comma-free names gives the names back. */
  lemma NamesOf(line: string, names: seq<string>)
    requires |names| >= 1 && forall k :: 0 <= k < |names| ==> Comma !in names[k]
    requires Join(names, Comma) == line
    ensures Split(line, Comma) == names
  {
    SplitJoin(names, Comma);
  }

  /** The result, read back through its lines, is the rewritten header over the old data lines. */
  lemma ResultOf(csv: string, lines: seq<string>, names: seq<string>, out: seq<string>)
    requires Comma in csv
    requires Lines(csv) == lines
    requires Split(lines[0], Comma) == names
    requires UniquifyNames(names) == out
    ensures UniquifyColumnNames(csv) == Join([Join(out, Comma)] + lines[1..], Newline)
  {
  }

  const Repeated: string := "a,b,a\n1,2,3\n4,5,6"
  const RepeatedLines: seq<string> := ["a,b,a", "1,2,3", "4,5,6"]
  const RepeatedNames: seq<string> := ["a", "b", "a"]
  const RepeatedUnique: seq<string> := ["a", "b", "a\U{200B}"]
  const RepeatedFixed: string := "a,b,a\U{200B}\n1,2,3\n4,5,6"

  /** The three lines of the repeated-name table. */
  lemma RepeatedLinesSplit()
    ensures Lines(Repeated) == RepeatedLines
  {
    assert Join(RepeatedLines[2..], Newline) == "4,5,6";
    assert Join(RepeatedLines[1..], Newline) == "1,2,3\n4,5,6";
    assert Join(RepeatedLines, Newline) == Repeated;
    LinesOf(Repeated, RepeatedLines);
  }

  /** The names of its header. */
  lemma RepeatedHeaderSplit()
    ensures Split(RepeatedLines[0], Comma) == RepeatedNames
  {
    assert Join(RepeatedNames, Comma) == RepeatedLines[0];
    NamesOf(RepeatedLines[0], RepeatedNames);
  }

  /** Names "a" then "b" are free; the second "a" needs one marker. */
  lemma RepeatedScan()
    ensures UniquifyNames(RepeatedNames) == RepeatedUnique
  {
    var names := RepeatedNames;
    var a1 := "a\U{200B}";
    var taken := {"a", "b"};
    assert Candidates("a", 1) == {"a"} by { assert Candidate("a", 0) == "a"; }
    assert Candidate("a", 1) == a1;
    UniqueKeyIsLeastFree("a", taken, 1);
    assert UniqueKey("a", {}) == "a";
    assert UniqueKey("b", {"a"}) == "b";
    assert {} + {"a"} + {"b"} == taken;
    assert UniquifyFrom(names[2..], taken) == [a1];
    assert UniquifyFrom(names[1..], {"a"}) == ["b", a1];
  }

  /** The unique names and the data lines joined back together. */
  lemma RepeatedRejoined()
    ensures Join([Join(RepeatedUnique, Comma)] + RepeatedLines[1..], Newline) == RepeatedFixed
  {
    var header := "a,b,a\U{200B}";
    assert Join(RepeatedUnique[2..], Comma) == "a\U{200B}";
    assert Join(RepeatedUnique, Comma) == header;
    var parts := [header] + RepeatedLines[1..];
    assert parts == [header, "1,2,3", "4,5,6"];
    assert Join(parts[2..], Newline) == "4,5,6";
    assert Join(parts[1..], Newline) == "1,2,3\n4,5,6";
  }

  /** Header "a,b,a" gets one marker on its last name; both data lines stay. */
  lemma ExampleRepeatedName()
    ensures UniquifyColumnNames(Repeated) == RepeatedFixed
  {
    RepeatedLinesSplit();
    RepeatedHeaderSplit();
    RepeatedScan();
    assert Repeated[1] == Comma;
    ResultOf(Repeated, RepeatedLines, RepeatedNames, RepeatedUnique);
    RepeatedRejoined();
  }

  const Triple: string := "x,x,x\n1,2,3"
  const TripleLines: seq<string> := ["x,x,x", "1,2,3"]
  const TripleNames: seq<string> := ["x", "x", "x"]
  const TripleUnique: seq<string> := ["x", "x\U{200B}", "x\U{200B}\U{200B}"]
  const TripleFixed: string := "x,x\U{200B},x\U{200B}\U{200B}\n1,2,3"

  /** The lines of the triple-name table and the names of its header. */
  lemma TripleSplits()
    ensures Lines(Triple) == TripleLines
    ensures Split(TripleLines[0], Comma) == TripleNames
  {
    assert Join(TripleLines, Newline) == Triple;
    LinesOf(Triple, TripleLines);
    assert Join(TripleNames, Comma) == TripleLines[0];
    NamesOf(TripleLines[0], TripleNames);
  }

  /** Three equal names get zero, one and two markers, left to right. */
  lemma TripleScan()
    ensures UniquifyNames(TripleNames) == TripleUnique
  {
    var names := TripleNames;
    var x0, x1, x2 := "x", "x\U{200B}", "x\U{200B}\U{200B}";
    assert Candidate("x", 0) == x0 && Candidate("x", 1) == x1 && Candidate("x", 2) == x2;
    assert Candidates("x", 1) == {x0};
    assert Candidates("x", 2) == {x0, x1};
    UniqueKeyIsLeastFree("x", {x0}, 1);
    UniqueKeyIsLeastFree("x", {x0, x1}, 2);
    assert UniqueKey("x", {}) == x0;
    assert {} + {x0} + {x1} == {x0, x1};
    assert UniquifyFrom(names[2..], {x0, x1}) == [x2];
    assert UniquifyFrom(names[1..], {x0}) == [x1, x2];
  }

  /** The unique names and the data line joined back together. */
  lemma TripleRejoined()
    ensures Join([Join(TripleUnique, Comma)] + TripleLines[1..], Newline) == TripleFixed
  {
  }

  /** Header "x,x,x" becomes "x", "x" plus one marker, "x" plus two; the data line stays. */
  lemma ExampleTripleName()
    ensures UniquifyColumnNames(Triple) == TripleFixed
  {
    TripleSplits();
    TripleScan();
    assert Triple[1] == Comma;
    ResultOf(Triple, TripleLines, TripleNames, TripleUnique);
    TripleRejoined();
  }

  const SingleColumn: string := "singlecolumn\nval1\nval2"

  /** A single column with data lines has no comma and comes back as it is; so does empty text. */
  lemma ExampleSingleColumn()
    ensures UniquifyColumnNames(SingleColumn) == SingleColumn
    ensures UniquifyColumnNames("") == ""
  {
    assert Comma !in SingleColumn;
  }
}
