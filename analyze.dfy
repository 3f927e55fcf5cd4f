/** The network loader of the analyzer: one line per node, the node first,
    then its links, all separated by commas. */
module Analyze {
  import opened Wrappers
  import opened Sequences

  type Network = map<string, seq<string>>

  /** Why reading a line failed; its content is not interpreted. */
  datatype ReadError = ReadError(message: string)

  /** The fields of `split(",")`: never empty, one more than there are
      commas, and none of them holds a comma. */
  function Split(s: string): (fields: seq<string>)
    ensures |fields| == Occurrences(s, ',') + 1
    ensures forall i :: 0 <= i < |fields| ==> ',' !in fields[i]
  {
    if s == [] then [[]]
    else
      var rest := Split(s[1..]);
      if s[0] == ',' then [[]] + rest
      else [[s[0]] + rest[0]] + rest[1..]
  }

  /** The fields put back together with a comma between each two. */
  function Join(fields: seq<string>): string
    requires fields != []
  {
    if |fields| == 1 then fields[0] else fields[0] + [','] + Join(fields[1..])
  }

  /** Splitting loses nothing: the fields joined again are the line. */
  lemma {:induction false} JoinSplit(s: string)
    ensures Join(Split(s)) == s
  {
    if s != [] {
      var rest := Split(s[1..]);
      JoinSplit(s[1..]);
      if s[0] == ',' {
        assert ([[]] + rest)[1..] == rest;
        assert s == [','] + s[1..];
      } else {
        var fields := [[s[0]] + rest[0]] + rest[1..];
        if |rest| == 1 {
          assert s == [s[0]] + s[1..];
        } else {
          assert fields[1..] == rest[1..];
          assert Join(rest) == rest[0] + [','] + Join(rest[1..]);
          assert s == [s[0]] + s[1..];
        }
      }
    }
  }

  /** The entry a line makes: the first field is the key, the remaining
      fields are its links, verbatim. */
  function Entry(line: string): (entry: (string, seq<string>))
    ensures [entry.0] + entry.1 == Split(line)
  {
    var fields := Split(line);
    (fields[0], fields[1..])
  }

  /** The map after the lines read so far, or the first read error. */
  function Loaded(lines: seq<Result<string, ReadError>>): Result<Network, ReadError>
  {
    if lines == [] then Success(map[])
    else
      match Loaded(lines[..|lines| - 1])
      case Failure(e) => Failure(e)
      case Success(network) =>
        match lines[|lines| - 1]
        case Failure(e) => Failure(e)
        case Success(line) =>
          var entry := Entry(line);
          Success(network[entry.0 := entry.1])
  }

  /** `load_network`, over the lines the reader yields: a read error ends
      the load with that error; every line read inserts its entry. */
  method LoadNetwork(lines: seq<Result<string, ReadError>>) returns (r: Result<Network, ReadError>)
    ensures r == Loaded(lines)
  {
    var network: Network := map[];
    for i := 0 to |lines|
      invariant Loaded(lines[..i]) == Success(network)
    {
      assert lines[..i + 1][..i] == lines[..i];
      var lineResult := lines[i];
      if lineResult.Failure? {
        LoadedReadAll(lines[..i]);
        assert forall j :: 0 <= j < i ==> lines[..i][j] == lines[j];
        LoadedFailure(lines, i);
        return Failure(lineResult.error);
      }
      var line := lineResult.value;
      var entries := Split(line);
      network := network[entries[0] := entries[1..]];
    }
    assert lines[..|lines|] == lines;
    r := Success(network);
  }

  /** A load that succeeds read every line. */
  lemma {:induction false} LoadedReadAll(lines: seq<Result<string, ReadError>>)
    requires Loaded(lines).Success?
    ensures forall j :: 0 <= j < |lines| ==> lines[j].Success?
  {
    if lines != [] {
      var init := lines[..|lines| - 1];
      LoadedReadAll(init);
      assert forall j :: 0 <= j < |init| ==> init[j] == lines[j];
    }
  }

  /** Without read errors the load succeeds. */
  lemma {:induction false} LoadedSuccess(lines: seq<Result<string, ReadError>>)
    requires forall j :: 0 <= j < |lines| ==> lines[j].Success?
    ensures Loaded(lines).Success?
  {
    if lines != [] {
      var init := lines[..|lines| - 1];
      assert forall j :: 0 <= j < |init| ==> init[j] == lines[j];
      LoadedSuccess(init);
    }
  }

  /** With a read error the load fails, with the first such error. */
  lemma {:induction false} LoadedFailure(lines: seq<Result<string, ReadError>>, i: nat)
    requires i < |lines| && lines[i].Failure?
    requires forall j :: 0 <= j < i ==> lines[j].Success?
    ensures Loaded(lines) == Failure(lines[i].error)
  {
    var init := lines[..|lines| - 1];
    assert forall j :: 0 <= j < |init| ==> init[j] == lines[j];
    if i < |lines| - 1 {
      LoadedFailure(init, i);
    } else {
      LoadedSuccess(init);
    }
  }

  /** Every line read contributes a key, and every key comes from a line. */
  lemma {:induction false} LoadedKeys(lines: seq<Result<string, ReadError>>)
    requires forall j :: 0 <= j < |lines| ==> lines[j].Success?
    ensures Loaded(lines).Success?
    ensures forall j :: 0 <= j < |lines| ==> Entry(lines[j].value).0 in Loaded(lines).value
    ensures forall x :: x in Loaded(lines).value ==>
      exists j :: 0 <= j < |lines| && Entry(lines[j].value).0 == x
  {
    LoadedSuccess(lines);
    if lines != [] {
      var init := lines[..|lines| - 1];
      assert forall j :: 0 <= j < |init| ==> init[j] == lines[j];
      LoadedKeys(init);
    }
  }

  /** A later line with the same key replaces the entry of an earlier one. */
  lemma {:induction false} LastLineWins(lines: seq<Result<string, ReadError>>, i: nat)
    requires Loaded(lines).Success? && i < |lines| && lines[i].Success?
    requires forall j :: i < j < |lines| && lines[j].Success? ==>
      Entry(lines[j].value).0 != Entry(lines[i].value).0
    ensures Entry(lines[i].value).0 in Loaded(lines).value
    ensures Loaded(lines).value[Entry(lines[i].value).0] == Entry(lines[i].value).1
  {
    if i < |lines| - 1 {
      var init := lines[..|lines| - 1];
      assert init[i] == lines[i];
      LastLineWins(init, i);
    }
  }

  /** A text without a comma is a single field. */
  lemma SplitNoComma(s: string)
    requires ',' !in s
    ensures Split(s) == [s]
  {
    OccurrencesAbsent(s, ',');
    JoinSplit(s);
  }

  /** The first field runs up to the first comma; the rest of the text is
      split on its own. */
  lemma {:induction false} SplitAtComma(a: string, b: string)
    requires ',' !in a
    ensures Split(a + [','] + b) == [a] + Split(b)
  {
    if a == [] {
      assert a + [','] + b == [','] + b;
      assert ([','] + b)[1..] == b;
    } else {
      var s := a + [','] + b;
      assert s[1..] == a[1..] + [','] + b;
      SplitAtComma(a[1..], b);
      assert [a[0]] + a[1..] == a;
    }
  }

  /** A line without a comma is a node without links; the empty line is the
      node with the empty name. */
  lemma NoCommaNoLinks(line: string)
    requires ',' !in line
    ensures Entry(line) == (line, [])
  {
    SplitNoComma(line);
  }

  /** Fields are kept verbatim, spaces included. */
  lemma SplitExample()
    ensures Entry("A, B,C") == ("A", [" B", "C"])
  {
    assert "A, B,C" == "A" + [','] + " B,C";
    assert " B,C" == " B" + [','] + "C";
    SplitAtComma("A", " B,C");
    SplitAtComma(" B", "C");
    SplitNoComma("C");
    assert Split("A, B,C") == ["A"] + (([" B"]) + ["C"]);
    assert ["A"] + (([" B"]) + ["C"]) == ["A", " B", "C"];
  }
}
