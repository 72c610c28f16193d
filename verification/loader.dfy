/**
 The CSV header de-duplication that the Vega data loader runs on fetched
 text before handing it to the CSV parser. Column names that repeat an
 earlier one get zero-width spaces appended until they are new, so that
 the parser's row objects keep every column.
 */
module Loader {
  import opened Text

  /** The invisible marker appended to repeated names (U+200B). */
  const ZeroWidthSpace: char := '\U{200B}'

  /** The column delimiter and the line terminator, both matched literally. */
  const Comma: char := ','
  const Newline: char := '\n'

  /** `n` markers in a row: the marker string repeated `n` times. */
  function Markers(n: nat): (m: string)
  {
    seq(n, _ => ZeroWidthSpace)
  }

  /** The `k`-th name tried for `key`: `key` followed by `k` markers. */
  function Candidate(key: string, k: nat): (c: string)
  {
    key + Markers(k)
  }

  /** The first `n` candidates for `key`. */
  ghost function Candidates(key: string, n: nat): set<string>
  {
    set j | 0 <= j < n :: Candidate(key, j)
  }

  /** `unique` is `name` followed by zero or more markers. */
  ghost predicate IsMarked(name: string, unique: string)
  {
    && |name| <= |unique|
    && unique[..|name|] == name
    && forall i :: |name| <= i < |unique| ==> unique[i] == ZeroWidthSpace
  }

  /** No two entries of `names` are equal. */
  ghost predicate Distinct(names: seq<string>)
  {
    forall i, j :: 0 <= i < j < |names| ==> names[i] != names[j]
  }

  /** The set of entries of `names`. */
  ghost function Elems(names: seq<string>): set<string>
  {
    set x | x in names
  }

  /**
   `k` is the marker count the search settles on: candidate `k` is free and
   every candidate before it is taken.
   */
  ghost predicate LeastFree(key: string, existing: set<string>, k: nat)
  {
    Candidate(key, k) !in existing && Candidates(key, k) <= existing
  }

  /** A subset is no larger than its superset. */
  lemma {:induction false} SubsetCardinality<T>(a: set<T>, b: set<T>)
    requires a <= b
    ensures |a| <= |b|
    decreases a
  {
    if a != {} {
      var x :| x in a;
      SubsetCardinality(a - {x}, b - {x});
    }
  }

  /** Candidates for one key are pairwise different, so `n` of them make `n` names. */
  lemma {:induction false} CandidatesCount(key: string, n: nat)
    ensures |Candidates(key, n)| == n
  {
    if n > 0 {
      CandidatesCount(key, n - 1);
      assert Candidates(key, n) == Candidates(key, n - 1) + {Candidate(key, n - 1)};
    }
  }

  /**
   The marker search of `getUniqueKey`, starting from candidate `k`. It ends
   because the candidates already found taken are distinct members of the
   finite set `existing`, so at most `|existing|` of them can be taken.
   */
  function Probe(key: string, existing: set<string>, k: nat): (r: nat)
    requires Candidates(key, k) <= existing
    ensures k <= r <= |existing|
    ensures LeastFree(key, existing, r)
    decreases |existing| - k
  {
    CandidatesCount(key, k);
    SubsetCardinality(Candidates(key, k), existing);
    if Candidate(key, k) !in existing then k
    else
      assert Candidates(key, k + 1) == Candidates(key, k) + {Candidate(key, k)};
      CandidatesCount(key, k + 1);
      SubsetCardinality(Candidates(key, k + 1), existing);
      Probe(key, existing, k + 1)
  }

  /** The name `getUniqueKey` returns for `key` given the names already taken. */
  function UniqueKey(key: string, existing: set<string>): (r: string)
    ensures r !in existing
    ensures key !in existing ==> r == key
    ensures IsMarked(key, r)
    ensures |r| <= |key| + |existing|
  {
    var k := Probe(key, existing, 0);
    assert Candidate(key, 0) == key;
    assert k > 0 ==> Candidate(key, 0) in Candidates(key, k);
    Candidate(key, k)
  }

  /** Only one marker count is the least free one. */
  lemma LeastFreeUnique(key: string, existing: set<string>, k1: nat, k2: nat)
    requires LeastFree(key, existing, k1) && LeastFree(key, existing, k2)
    ensures k1 == k2
  {
  }

  /**
   The unique key is exactly the candidate with the least free marker
   count: fewest markers such that the name is not yet taken.
   */
  lemma UniqueKeyIsLeastFree(key: string, existing: set<string>, k: nat)
    ensures UniqueKey(key, existing) == Candidate(key, k) <==> LeastFree(key, existing, k)
  {
    var p := Probe(key, existing, 0);
    if UniqueKey(key, existing) == Candidate(key, k) {
      assert |Candidate(key, k)| == |key| + k;
      assert |Candidate(key, p)| == |key| + p;
    }
    if LeastFree(key, existing, k) {
      LeastFreeUnique(key, existing, k, p);
    }
  }

  /**
   `getUniqueKey` as written: try `key`, then `key` with one marker, two
   markers, and so on, until the name is not in `existingKeys`.
   */
  method GetUniqueKey(key: string, existingKeys: set<string>) returns (result: string)
    ensures result !in existingKeys
    ensures result == UniqueKey(key, existingKeys)
  {
    result := key;
    var count := 1;
    while result in existingKeys
      invariant 1 <= count
      invariant result == Candidate(key, count - 1)
      invariant Candidates(key, count - 1) <= existingKeys
      decreases |existingKeys| - (count - 1)
    {
      assert Candidates(key, count) == Candidates(key, count - 1) + {result};
      CandidatesCount(key, count);
      SubsetCardinality(Candidates(key, count), existingKeys);
      result := key + Markers(count);
      count := count + 1;
    }
    UniqueKeyIsLeastFree(key, existingKeys, count - 1);
  }

  /**
   The left-to-right scan of the header names: each name is replaced by its
   unique key given `existing` and the names emitted before it.
   */
  function UniquifyFrom(names: seq<string>, existing: set<string>): (out: seq<string>)
    ensures |out| == |names|
    ensures forall i :: 0 <= i < |out| ==> out[i] !in existing
    ensures forall i :: 0 <= i < |out| ==> IsMarked(names[i], out[i])
    ensures Distinct(out)
    decreases |names|
  {
    if |names| == 0 then []
    else
      var u := UniqueKey(names[0], existing);
      [u] + UniquifyFrom(names[1..], existing + {u})
  }

  /** The scan over one header row, starting with no names taken. */
  function UniquifyNames(names: seq<string>): (out: seq<string>)
    ensures |out| == |names|
    ensures Distinct(out)
    ensures forall i :: 0 <= i < |out| ==> IsMarked(names[i], out[i])
  {
    UniquifyFrom(names, {})
  }

  /**
   `out` is what a left-to-right scan of `names` emits: every entry is the
   unique key of its name given `existing` and the entries before it.
   */
  ghost predicate ScanOf(names: seq<string>, out: seq<string>, existing: set<string>)
  {
    && |out| == |names|
    && forall i :: 0 <= i < |out| ==> out[i] == UniqueKey(names[i], existing + Elems(out[..i]))
  }

  /** The entries of a non-empty sequence are its head and the entries of its tail. */
  lemma ElemsCons(names: seq<string>)
    requires |names| > 0
    ensures Elems(names) == {names[0]} + Elems(names[1..])
  {
    assert forall x :: x in names <==> x == names[0] || x in names[1..];
  }

  /** Appending an entry adds it to the entries. */
  lemma ElemsSnoc(names: seq<string>, name: string)
    ensures Elems(names + [name]) == Elems(names) + {name}
  {
    assert forall x :: x in names + [name] <==> x in names || x == name;
  }

  /** A scan emits its first entry for the first name, then scans the rest with that entry taken. */
  lemma ScanCons(names: seq<string>, out: seq<string>, existing: set<string>)
    requires |names| > 0 && |out| == |names|
    ensures ScanOf(names, out, existing) <==>
            out[0] == UniqueKey(names[0], existing) && ScanOf(names[1..], out[1..], existing + {out[0]})
  {
    var e' := existing + {out[0]};
    assert out[..0] == [];
    assert existing + Elems(out[..0]) == existing;
    forall i | 0 <= i < |out| - 1
      ensures existing + Elems(out[..i + 1]) == e' + Elems(out[1..][..i])
    {
      assert out[..i + 1][1..] == out[1..][..i];
      ElemsCons(out[..i + 1]);
    }
    if ScanOf(names, out, existing) {
      forall i | 0 <= i < |out| - 1
        ensures out[1..][i] == UniqueKey(names[1..][i], e' + Elems(out[1..][..i]))
      {
        assert out[1..][i] == out[i + 1];
      }
    }
    if out[0] == UniqueKey(names[0], existing) && ScanOf(names[1..], out[1..], e') {
      forall i | 0 <= i < |out|
        ensures out[i] == UniqueKey(names[i], existing + Elems(out[..i]))
      {
        if i > 0 {
          assert out[i] == out[1..][i - 1];
        }
      }
    }
  }

  /** Extending a scan by one name emits that name's unique key given everything emitted so far. */
  lemma ScanSnoc(names: seq<string>, out: seq<string>, existing: set<string>, name: string, unique: string)
    requires ScanOf(names, out, existing)
    requires unique == UniqueKey(name, existing + Elems(out))
    ensures ScanOf(names + [name], out + [unique], existing)
  {
    var out' := out + [unique];
    assert out'[..|out|] == out;
    forall i | 0 <= i < |out'|
      ensures out'[i] == UniqueKey((names + [name])[i], existing + Elems(out'[..i]))
    {
      if i < |out| {
        assert out'[..i] == out[..i];
      }
    }
  }

  /**
   The recursive scan and the entry-by-entry description agree, in both
   directions: `UniquifyFrom` emits exactly the sequence the scan does.
   */
  lemma {:induction false} UniquifyFromIsScan(names: seq<string>, out: seq<string>, existing: set<string>)
    ensures ScanOf(names, out, existing) <==> out == UniquifyFrom(names, existing)
    decreases |names|
  {
    if |names| > 0 && |out| == |names| {
      var u := UniqueKey(names[0], existing);
      var rest := UniquifyFrom(names[1..], existing + {u});
      assert UniquifyFrom(names, existing) == [u] + rest;
      ScanCons(names, out, existing);
      UniquifyFromIsScan(names[1..], out[1..], existing + {out[0]});
      if out[0] == u {
        assert out == [u] + rest <==> out[1..] == rest;
      }
    }
  }

  /**
   The scan leaves names alone exactly when they are already pairwise
   distinct (and none is taken beforehand).
   */
  lemma {:induction false} UniquifyFromFixesDistinct(names: seq<string>, existing: set<string>)
    requires forall i :: 0 <= i < |names| ==> names[i] !in existing
    ensures UniquifyFrom(names, existing) == names <==> Distinct(names)
    decreases |names|
  {
    if |names| > 0 && Distinct(names) {
      var u := names[0];
      assert UniqueKey(names[0], existing) == u;
      assert forall i :: 0 <= i < |names[1..]| ==> names[1..][i] == names[i + 1];
      UniquifyFromFixesDistinct(names[1..], existing + {u});
      assert names == [u] + names[1..];
    }
  }

  /**
   The header loop of `uniquifyColumnNames` as written: a growing set of
   names already emitted, and one `getUniqueKey` call per name.
   */
  method UniquifyHeaderNames(headerNames: seq<string>) returns (newNames: seq<string>)
    ensures newNames == UniquifyNames(headerNames)
  {
    var existingNames: set<string> := {};
    newNames := [];
    var i := 0;
    while i < |headerNames|
      invariant 0 <= i <= |headerNames|
      invariant ScanOf(headerNames[..i], newNames, {})
      invariant existingNames == Elems(newNames)
    {
      var uniqueName := GetUniqueKey(headerNames[i], existingNames);
      assert {} + Elems(newNames) == existingNames;
      ScanSnoc(headerNames[..i], newNames, {}, headerNames[i], uniqueName);
      assert headerNames[..i + 1] == headerNames[..i] + [headerNames[i]];
      ElemsSnoc(newNames, uniqueName);
      newNames := newNames + [uniqueName];
      existingNames := existingNames + {uniqueName};
      i := i + 1;
    }
    assert headerNames[..i] == headerNames;
    UniquifyFromIsScan(headerNames, newNames, {});
  }

  /** The lines of the text, split on the newline character. */
  function Lines(csv: string): (lines: seq<string>)
  {
    Split(csv, Newline)
  }

  /** The column names of the header, line 0 split on commas. */
  function HeaderNames(csv: string): (names: seq<string>)
  {
    Split(Lines(csv)[0], Comma)
  }

  /**
   `uniquifyColumnNames`: empty text and text without a comma come back as
   they are; otherwise the header line is rewritten with unique names and
   all lines are joined again.
   */
  function UniquifyColumnNames(csv: string): (r: string)
  {
    if |csv| == 0 || Comma !in csv then csv
    else
      var lines := Lines(csv);
      var uniqueHeader := Join(UniquifyNames(Split(lines[0], Comma)), Comma);
      Join([uniqueHeader] + lines[1..], Newline)
  }

  /** A marked name holds only the name's characters and markers. */
  lemma MarkedOmits(name: string, unique: string, c: char)
    requires IsMarked(name, unique)
    requires c !in name && c != ZeroWidthSpace
    ensures c !in unique
  {
  }

  /**
   With a comma present, the lines of the result are the rewritten header
   followed by the original data lines, and the rewritten header splits
   back into the unique names.
   */
  lemma RewrittenLines(csv: string)
    requires |csv| > 0 && Comma in csv
    ensures Lines(UniquifyColumnNames(csv)) ==
            [Join(UniquifyNames(HeaderNames(csv)), Comma)] + Lines(csv)[1..]
    ensures HeaderNames(UniquifyColumnNames(csv)) == UniquifyNames(HeaderNames(csv))
  {
    var lines := Lines(csv);
    var names := HeaderNames(csv);
    var out := UniquifyNames(names);
    var uniqueHeader := Join(out, Comma);
    SplitOmits(lines[0], Comma, Newline);
    forall k | 0 <= k < |out|
      ensures Newline !in out[k] && Comma !in out[k]
    {
      MarkedOmits(names[k], out[k], Newline);
      MarkedOmits(names[k], out[k], Comma);
    }
    JoinOmits(out, Comma, Newline);
    var parts := [uniqueHeader] + lines[1..];
    assert forall k :: 0 <= k < |parts| ==> Newline !in parts[k] by {
      forall k | 0 <= k < |parts| ensures Newline !in parts[k] {
        if k > 0 {
          assert parts[k] == lines[k];
        }
      }
    }
    SplitJoin(parts, Newline);
    SplitJoin(out, Comma);
  }

  /**
   For every input, the output header is the left-to-right scan of the
   input header: same number of names, pairwise distinct, each name the
   input name plus the fewest markers that make it new.
   */
  lemma HeaderIsUniquified(csv: string)
    ensures HeaderNames(UniquifyColumnNames(csv)) == UniquifyNames(HeaderNames(csv))
    ensures |HeaderNames(UniquifyColumnNames(csv))| == |HeaderNames(csv)|
    ensures Distinct(HeaderNames(UniquifyColumnNames(csv)))
    ensures forall i :: 0 <= i < |HeaderNames(csv)| ==>
              IsMarked(HeaderNames(csv)[i], HeaderNames(UniquifyColumnNames(csv))[i])
    ensures ScanOf(HeaderNames(csv), HeaderNames(UniquifyColumnNames(csv)), {})
  {
    var names := HeaderNames(csv);
    if |csv| == 0 || Comma !in csv {
      SplitOmits(csv, Newline, Comma);
      assert names == [Lines(csv)[0]];
      assert UniquifyNames(names) == [UniqueKey(names[0], {})] + UniquifyFrom([], {names[0]});
    } else {
      RewrittenLines(csv);
    }
    UniquifyFromIsScan(names, UniquifyNames(names), {});
  }

  /** Every line after the header comes out as it went in, and no line is added or lost. */
  lemma DataLinesUnchanged(csv: string)
    ensures |Lines(UniquifyColumnNames(csv))| == |Lines(csv)|
    ensures forall i :: 1 <= i < |Lines(csv)| ==> Lines(UniquifyColumnNames(csv))[i] == Lines(csv)[i]
  {
    if |csv| > 0 && Comma in csv {
      RewrittenLines(csv);
    }
  }

  /** Text without a comma has a one-name header and is returned unchanged. */
  lemma NoCommaUnchanged(csv: string)
    requires Comma !in csv
    ensures |HeaderNames(csv)| == 1
    ensures UniquifyColumnNames(csv) == csv
  {
    SplitOmits(csv, Newline, Comma);
  }

  /** The text comes back unchanged exactly when its header names are already distinct. */
  lemma UnchangedIffDistinct(csv: string)
    ensures UniquifyColumnNames(csv) == csv <==> Distinct(HeaderNames(csv))
  {
    HeaderIsUniquified(csv);
    var lines := Lines(csv);
    var names := HeaderNames(csv);
    UniquifyFromFixesDistinct(names, {});
    if Distinct(names) && |csv| > 0 && Comma in csv {
      JoinSplit(lines[0], Comma);
      assert [lines[0]] + lines[1..] == lines;
      JoinSplit(csv, Newline);
    }
  }

  /** Running the rewrite twice gives the same text as running it once. */
  lemma Idempotent(csv: string)
    ensures UniquifyColumnNames(UniquifyColumnNames(csv)) == UniquifyColumnNames(csv)
  {
    HeaderIsUniquified(csv);
    UnchangedIffDistinct(UniquifyColumnNames(csv));
  }
}
