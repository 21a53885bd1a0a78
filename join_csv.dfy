/**
 * `join_csv_three`: three CSV files with the same header are written one
 * after the other under a single header. The output file is opened, and so
 * emptied, before anything is read.
 */
module JoinCsv {
  import opened Common
  import opened SplitCsv

  /** Why the join stops: an input without even a header line, or headers that differ. */
  datatype JoinError = MissingHeader | HeadersDiffer

  /** What the output file holds afterwards, and whether the join succeeded. */
  datatype JoinOutcome = JoinOutcome(written: Csv, status: Result<(), JoinError>)

  /** `join_csv_three`, as a value. */
  function Join(in1: Csv, in2: Csv, in3: Csv): JoinOutcome
  {
    if in1 == [] || in2 == [] || in3 == [] then JoinOutcome([], Err(MissingHeader))
    else if in1[0] != in2[0] || in1[0] != in3[0] then JoinOutcome([], Err(HeadersDiffer))
    else JoinOutcome([in1[0]] + in1[1..] + in2[1..] + in3[1..], Ok(()))
  }

  /**
   * `join_csv_three`: the output starts empty, the three headers are read
   * and compared, then the first header and the data rows of the three
   * inputs are written in turn.
   */
  method JoinThree(in1: Csv, in2: Csv, in3: Csv) returns (out: JoinOutcome)
    ensures out == Join(in1, in2, in3)
  {
    var written: Csv := [];
    if in1 == [] || in2 == [] || in3 == [] {
      return JoinOutcome(written, Err(MissingHeader));
    }
    var header1, header2, header3 := in1[0], in2[0], in3[0];
    if header1 != header2 || header1 != header3 {
      return JoinOutcome(written, Err(HeadersDiffer));
    }
    written := written + [header1];
    var i := 1;
    while i < |in1|
      invariant 1 <= i <= |in1|
      invariant written == [header1] + in1[1..i]
    {
      assert in1[1..i + 1] == in1[1..i] + [in1[i]];
      written := written + [in1[i]];
      i := i + 1;
    }
    ghost var after1 := written;
    i := 1;
    while i < |in2|
      invariant 1 <= i <= |in2|
      invariant written == after1 + in2[1..i]
    {
      assert in2[1..i + 1] == in2[1..i] + [in2[i]];
      written := written + [in2[i]];
      i := i + 1;
    }
    ghost var after2 := written;
    i := 1;
    while i < |in3|
      invariant 1 <= i <= |in3|
      invariant written == after2 + in3[1..i]
    {
      assert in3[1..i + 1] == in3[1..i] + [in3[i]];
      written := written + [in3[i]];
      i := i + 1;
    }
    assert in1[1..|in1|] == in1[1..] && in2[1..|in2|] == in2[1..] && in3[1..|in3|] == in3[1..];
    out := JoinOutcome(written, Ok(()));
  }

  /**
   * The join succeeds exactly when all three inputs have the same header;
   * otherwise the output is left empty. On success it holds the common
   * header, then every data row of the first, second and third input in
   * order, one line more than their data rows together.
   */
  lemma JoinSpec(in1: Csv, in2: Csv, in3: Csv)
    ensures var out := Join(in1, in2, in3);
      && (out.status.Ok? <==> in1 != [] && in2 != [] && in3 != [] && in1[0] == in2[0] == in3[0])
      && (out.status.Err? ==> out.written == [])
      && (out.status.Ok? ==>
            && |out.written| == 1 + (|in1| - 1) + (|in2| - 1) + (|in3| - 1)
            && out.written[0] == in1[0]
            && (forall i :: 1 <= i < |in1| ==> out.written[i] == in1[i])
            && (forall i :: 1 <= i < |in2| ==> out.written[|in1| - 1 + i] == in2[i])
            && (forall i :: 1 <= i < |in3| ==> out.written[|in1| + |in2| - 2 + i] == in3[i]))
  {
  }

  /** Joining the three parts of a split gives back the file that was split. */
  lemma JoinAfterSplit(input: Csv)
    requires Split(input).Ok?
    ensures var parts := Split(input).value;
      Join(parts.part1, parts.part2, parts.part3) == JoinOutcome(input, Ok(()))
  {
    var s := PartSizes(|input| - 1);
    PartSizesBalanced(|input| - 1);
    var h, data := input[0], input[1..];
    var a, b, c := data[..s.p1], data[s.p1..s.p1 + s.p2], data[s.p1 + s.p2..];
    assert Split(input).value == Parts([h] + a, [h] + b, [h] + c);
    JoinOfParts(h, a, b, c);
    ThreeSlices(data, s.p1, s.p1 + s.p2);
    assert [h] + data == input;
  }

  /** Cutting a sequence at two points and gluing the pieces back gives it back. */
  lemma ThreeSlices(data: Csv, i: int, j: int)
    requires 0 <= i <= j <= |data|
    ensures data[..i] + data[i..j] + data[j..] == data
  {
    assert data[..i] + data[i..j] == data[..j];
  }

  /** Three parts under one header join into the header followed by their rows. */
  lemma JoinOfParts(h: seq<string>, a: Csv, b: Csv, c: Csv)
    ensures Join([h] + a, [h] + b, [h] + c) == JoinOutcome([h] + (a + b + c), Ok(()))
  {
    assert ([h] + a)[1..] == a && ([h] + b)[1..] == b && ([h] + c)[1..] == c;
  }

  /**
   * Splitting a join gives back the three inputs, provided they share a
   * header, hold some data, and their sizes are those the split would choose.
   */
  lemma SplitAfterJoin(in1: Csv, in2: Csv, in3: Csv)
    requires in1 != [] && in2 != [] && in3 != [] && in1[0] == in2[0] == in3[0]
    requires |in1| + |in2| + |in3| > 3
    requires PartSizes(|in1| + |in2| + |in3| - 3) == Sizes(|in1| - 1, |in2| - 1, |in3| - 1)
    ensures Split(Join(in1, in2, in3).written) == Ok(Parts(in1, in2, in3))
  {
    var h, a, b, c := in1[0], in1[1..], in2[1..], in3[1..];
    assert in1 == [h] + a && in2 == [h] + b && in3 == [h] + c;
    JoinOfParts(h, a, b, c);
    var joined := Join(in1, in2, in3).written;
    assert joined[0] == h && joined[1..] == a + b + c;
    PiecesOfThree(a, b, c);
    PartSizesBalanced(|a| + |b| + |c|);
    SplitWith(joined, Sizes(|a|, |b|, |c|));
  }

  /** The pieces of `a + b + c` cut at the lengths of `a` and `b` are `a`, `b` and `c`. */
  lemma PiecesOfThree(a: Csv, b: Csv, c: Csv)
    ensures var d := a + b + c;
      d[..|a|] == a && d[|a|..|a| + |b|] == b && d[|a| + |b|..] == c
  {
  }
}
