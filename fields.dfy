/** Splitting a sentence body into its comma-separated fields, Python's
    `buff.split(',')`, and joining fields back with commas, which is how the
    translated sentences are laid out. */
module Fields {

  predicate NoComma(s: string) {
    forall i :: 0 <= i < |s| ==> s[i] != ','
  }

  predicate AllNoComma(fields: seq<string>) {
    forall k :: 0 <= k < |fields| ==> NoComma(fields[k])
  }

  /** The number of commas in `s`. */
  function Commas(s: string): nat {
    if s == [] then 0 else (if s[0] == ',' then 1 else 0) + Commas(s[1..])
  }

  /** The position of the first comma of `s`, `|s|` when there is none. */
  function FirstComma(s: string): (i: nat)
    ensures i <= |s| && NoComma(s[..i])
    ensures i < |s| ==> s[i] == ','
  {
    if s == [] || s[0] == ',' then 0
    else
      var j := 1 + FirstComma(s[1..]);
      assert s[..j] == [s[0]] + s[1..][..j - 1];
      j
  }

  /** `s.split(',')`: the pieces between commas, empty pieces kept. */
  function Split(s: string): (fields: seq<string>)
    ensures |fields| >= 1
    ensures AllNoComma(fields)
    decreases |s|
  {
    var i := FirstComma(s);
    if i == |s| then [s] else [s[..i]] + Split(s[i + 1..])
  }

  /** `','.join(fields)`. */
  function Join(fields: seq<string>): string
    requires |fields| >= 1
  {
    if |fields| == 1 then fields[0] else fields[0] + "," + Join(fields[1..])
  }

  /** Joining the pieces of a split gives the text back. */
  lemma {:induction false} JoinSplit(s: string)
    ensures Join(Split(s)) == s
    decreases |s|
  {
    var i := FirstComma(s);
    if i < |s| {
      var rest := s[i + 1..];
      JoinSplit(rest);
      assert Split(s) == [s[..i]] + Split(rest);
      JoinCons(s[..i], Split(rest));
      assert s == s[..i] + "," + rest;
    } else {
      assert Split(s) == [s];
    }
  }

  /** Joining a field in front of others puts a comma after it. */
  lemma JoinCons(f: string, rest: seq<string>)
    requires |rest| >= 1
    ensures Join([f] + rest) == f + "," + Join(rest)
  {
    assert ([f] + rest)[1..] == rest;
  }

  /** Splitting joined comma-free fields gives the fields back, count and
      order included: a receiver that splits a translated sentence finds
      each field where it was put. */
  lemma {:induction false} SplitJoin(fields: seq<string>)
    requires |fields| >= 1 && AllNoComma(fields)
    ensures Split(Join(fields)) == fields
  {
    if |fields| > 1 {
      var f, rest := fields[0], fields[1..];
      assert Join(fields) == f + "," + Join(rest);
      assert NoComma(f);
      AllNoCommaTail(fields);
      SplitAfterField(f, Join(rest));
      SplitJoin(rest);
      assert fields == [f] + rest;
    } else {
      var f := fields[0];
      assert NoComma(f);
      assert FirstComma(f) == |f|;
      assert fields == [f];
    }
  }

  lemma AllNoCommaTail(fields: seq<string>)
    requires |fields| >= 1 && AllNoComma(fields)
    ensures AllNoComma(fields[1..])
  {
    forall k | 0 <= k < |fields| - 1 ensures NoComma(fields[1..][k]) {
      assert fields[1..][k] == fields[k + 1];
    }
  }

  /** A comma-free first field followed by a comma splits off as the first
      piece. */
  lemma SplitAfterField(f: string, rest: string)
    requires NoComma(f)
    ensures Split(f + "," + rest) == [f] + Split(rest)
  {
    var s := f + "," + rest;
    FirstCommaAfter(f, rest);
    assert s[|f|] == ',';
    assert s[..|f|] == f;
    assert s[|f| + 1..] == rest;
  }

  lemma {:induction false} FirstCommaAfter(f: string, rest: string)
    requires NoComma(f)
    ensures FirstComma(f + "," + rest) == |f|
  {
    if f != [] {
      assert (f + "," + rest)[1..] == f[1..] + "," + rest;
      FirstCommaAfter(f[1..], rest);
    }
  }

  /** There is one field more than there are commas. */
  lemma {:induction false} SplitCount(s: string)
    ensures |Split(s)| == Commas(s) + 1
    decreases |s|
  {
    var i := FirstComma(s);
    CommasOfCommaFree(s[..i]);
    if i == |s| {
      assert s[..i] == s;
    } else {
      SplitCount(s[i + 1..]);
      CommasAppend(s[..i], s[i..]);
      assert s == s[..i] + s[i..];
      assert s[i..][1..] == s[i + 1..];
    }
  }

  lemma {:induction false} CommasOfCommaFree(s: string)
    requires NoComma(s)
    ensures Commas(s) == 0
  {
    if s != [] {
      CommasOfCommaFree(s[1..]);
    }
  }

  lemma {:induction false} CommasAppend(a: string, b: string)
    ensures Commas(a + b) == Commas(a) + Commas(b)
  {
    if a == [] {
      assert a + b == b;
    } else {
      assert (a + b)[0] == a[0];
      assert (a + b)[1..] == a[1..] + b;
      CommasAppend(a[1..], b);
    }
  }

  /** Empty fields are kept, and their count too. */
  lemma SplitKeepsEmptyFields()
    ensures Split("GPRMC,,,") == ["GPRMC", "", "", ""]
  {
    var fields := ["GPRMC", "", "", ""];
    assert Join(fields) == "GPRMC,,,";
    SplitJoin(fields);
  }
}
