/**
 * `split_csv_three`: the data rows of a CSV file are shared out over three
 * files, in order, the first parts taking the remainder one row each, and
 * every part repeating the header.
 */
module SplitCsv {
  import opened Common

  /** A CSV file as records of fields, one record per line, the header first. */
  type Csv = seq<seq<string>>

  datatype Sizes = Sizes(p1: int, p2: int, p3: int)

  /** How many data rows each part receives. */
  function PartSizes(n: nat): Sizes
  {
    var base := n / 3;
    var remainder := n % 3;
    if remainder == 0 then Sizes(base, base, base)
    else if remainder == 1 then Sizes(base + 1, base, base)
    else Sizes(base + 1, base + 1, base)
  }

  /** Three sizes that add up to `n` and that differ by at most one, larger ones first. */
  predicate Balanced(s: Sizes, n: int)
  {
    s.p1 + s.p2 + s.p3 == n && s.p1 >= s.p2 >= s.p3 >= s.p1 - 1
  }

  /** The part sizes add up to the row count, larger parts first, differing by at most one. */
  lemma PartSizesBalanced(n: nat)
    ensures Balanced(PartSizes(n), n) && PartSizes(n).p3 >= 0
  {
  }

  /** They are the only such sizes. */
  lemma PartSizesUnique(n: nat, s: Sizes)
    requires Balanced(s, n)
    ensures s == PartSizes(n)
  {
  }

  /** The split of a file whose data rows are shared out in the balanced sizes `s`. */
  lemma SplitWith(input: Csv, s: Sizes)
    requires |input| > 1 && Balanced(s, |input| - 1) && s.p3 >= 0
    ensures var h, data := input[0], input[1..];
      Split(input) == Ok(Parts([h] + data[..s.p1], [h] + data[s.p1..s.p1 + s.p2], [h] + data[s.p1 + s.p2..]))
  {
    PartSizesUnique(|input| - 1, s);
  }

  datatype SplitError = NoDataRows

  /** The three output files. */
  datatype Parts = Parts(part1: Csv, part2: Csv, part3: Csv)

  /** Which part the data row with index `count` goes to. */
  function Route(count: int, s: Sizes): int
  {
    if count < s.p1 then 1 else if count < s.p1 + s.p2 then 2 else 3
  }

  /** `split_csv_three`, as a value: a file without data rows stops before anything is written. */
  function Split(input: Csv): Result<Parts, SplitError>
  {
    if |input| - 1 <= 0 then Err(NoDataRows)
    else
      var s := PartSizes(|input| - 1);
      var data := input[1..];
      Ok(Parts([input[0]] + data[..s.p1], [input[0]] + data[s.p1..s.p1 + s.p2], [input[0]] + data[s.p1 + s.p2..]))
  }

  /**
   * `split_csv_three`: counts the data rows, fails when there are none,
   * writes the header to the three parts and routes every data row by its
   * index.
   */
  method SplitThree(input: Csv) returns (r: Result<Parts, SplitError>)
    ensures r == Split(input)
  {
    var total := |input| - 1;
    if total <= 0 {
      return Err(NoDataRows);
    }
    var s := PartSizes(total);
    PartSizesBalanced(total);
    var header := input[0];
    var out1, out2, out3 := [header], [header], [header];
    var data := input[1..];
    var count := 0;
    while count < |data|
      invariant 0 <= count <= |data|
      invariant Parts(out1, out2, out3) == Routed(header, data, s, count)
    {
      var row := data[count];
      RoutedStep(header, data, s, count);
      if count < s.p1 {
        out1 := out1 + [row];
      } else if count < s.p1 + s.p2 {
        out2 := out2 + [row];
      } else {
        out3 := out3 + [row];
      }
      count := count + 1;
    }
    RoutedAll(header, data, s);
    r := Ok(Parts(out1, out2, out3));
  }

  /** The three parts once the first `n` data rows have been routed. */
  function Routed(header: seq<string>, data: Csv, s: Sizes, n: nat): Parts
    requires 0 <= s.p1 && 0 <= s.p2 && n <= |data|
  {
    var a := Min(n, s.p1);
    var b := Min(n, s.p1 + s.p2);
    Parts([header] + data[..a], [header] + data[a..b], [header] + data[b..n])
  }

  /** Routing one more row appends it to the part its index falls in and leaves the other two alone. */
  lemma RoutedStep(header: seq<string>, data: Csv, s: Sizes, n: nat)
    requires 0 <= s.p1 && 0 <= s.p2 && n < |data|
    ensures var p := Routed(header, data, s, n);
      var q := Routed(header, data, s, n + 1);
      && (n < s.p1 ==> q == Parts(p.part1 + [data[n]], p.part2, p.part3))
      && (s.p1 <= n < s.p1 + s.p2 ==> q == Parts(p.part1, p.part2 + [data[n]], p.part3))
      && (s.p1 + s.p2 <= n ==> q == Parts(p.part1, p.part2, p.part3 + [data[n]]))
  {
    if n < s.p1 {
      assert data[..n + 1] == data[..n] + [data[n]];
    } else if n < s.p1 + s.p2 {
      assert data[s.p1..n + 1] == data[s.p1..n] + [data[n]];
    } else {
      assert data[s.p1 + s.p2..n + 1] == data[s.p1 + s.p2..n] + [data[n]];
    }
  }

  /** Once every row is routed, the parts are the ones `Split` describes. */
  lemma RoutedAll(header: seq<string>, data: Csv, s: Sizes)
    requires s == PartSizes(|data|)
    ensures Routed(header, data, s, |data|) ==
      Parts([header] + data[..s.p1], [header] + data[s.p1..s.p1 + s.p2], [header] + data[s.p1 + s.p2..])
  {
    PartSizesBalanced(|data|);
    assert data[s.p1 + s.p2..|data|] == data[s.p1 + s.p2..];
  }

  /**
   * A split that succeeds gives three parts that each start with the input
   * header; the data row with index `i` is found in the part `Route` names,
   * at its offset within that part, and the data rows of the three parts,
   * one after the other, are the input's data rows.
   */
  lemma SplitSpec(input: Csv)
    ensures Split(input).Err? <==> |input| <= 1
    ensures Split(input).Ok? ==>
      var parts := Split(input).value;
      var s := PartSizes(|input| - 1);
      && parts.part1[0] == input[0] && parts.part2[0] == input[0] && parts.part3[0] == input[0]
      && |parts.part1| == 1 + s.p1 && |parts.part2| == 1 + s.p2 && |parts.part3| == 1 + s.p3
      && parts.part1[1..] + parts.part2[1..] + parts.part3[1..] == input[1..]
      && (forall i :: 0 <= i < |input| - 1 ==>
            match Route(i, s)
            case 1 => parts.part1[1 + i] == input[1 + i]
            case 2 => parts.part2[1 + i - s.p1] == input[1 + i]
            case _ => parts.part3[1 + i - s.p1 - s.p2] == input[1 + i])
  {
    if |input| > 1 {
      var s := PartSizes(|input| - 1);
      PartSizesBalanced(|input| - 1);
      var data := input[1..];
      assert data[..s.p1] + data[s.p1..s.p1 + s.p2] + data[s.p1 + s.p2..] == data;
    }
  }
}
