/**
 * The port-spec expander: `atoi` and `parsePortSpec`. A spec is split on
 * `,`; a token holding a `-` is an inclusive range between its first two
 * `-`-separated fields, any other token is one port. Numbers are read with
 * errors discarded, so a malformed number reads as 0, or as the largest
 * `int` when the digits before its first non-digit overflow 64 bits.
 */
module PortSpec {
  import opened Int64
  import opened GoStrings
  import GoStrconv
  import opened ScanConfig

  /** `atoi`: `strconv.Atoi` with its error discarded; it never fails. */
  function Atoi(s: string): (v: int)
    ensures InInt64(v)
    ensures GoStrconv.WellFormed(s) ==> v == Clamp(GoStrconv.SignedValue(s))
    ensures !GoStrconv.WellFormed(s) ==>
      v == if GoStrconv.PrefixOverflows(s) then GoStrconv.SignBound(s) else 0
    ensures !GoStrconv.WellFormed(s) && |s| <= 20 ==> v == 0
    ensures (s == [] || s[0] != '-') ==> v >= 0
  {
    if GoStrconv.WellFormed(s) then
      GoStrconv.AtoiWellFormed(s);
      GoStrconv.Atoi(s).value
    else if |s| <= 20 then
      GoStrconv.AtoiMalformed(s);
      GoStrconv.ShortNeverOverflows(s);
      GoStrconv.Atoi(s).value
    else
      GoStrconv.AtoiMalformed(s);
      GoStrconv.Atoi(s).value
  }

  /** The integers `lo, lo + 1, ..., hi` in ascending order; empty when `hi < lo`. */
  function Run(lo: int, hi: int): seq<int>
    decreases hi - lo + 1
  {
    if hi < lo then [] else Run(lo, hi - 1) + [hi]
  }

  /** The run has `hi - lo + 1` elements (none when `hi < lo`), the k-th being `lo + k`. */
  lemma {:induction false} RunAt(lo: int, hi: int)
    ensures |Run(lo, hi)| == if hi < lo then 0 else hi - lo + 1
    ensures forall k :: 0 <= k < |Run(lo, hi)| ==> Run(lo, hi)[k] == lo + k
    decreases hi - lo + 1
  {
    if hi >= lo {
      RunAt(lo, hi - 1);
    }
  }

  /**
   * The ports of a range token: the loop `for i := start; i < end+1; i++`,
   * where `end+1` is computed in 64-bit arithmetic.
   */
  function RangePorts(start: int, end: int): seq<int>
    requires InInt64(start) && InInt64(end)
  {
    Run(start, Wrap(end + 1) - 1)
  }

  /**
   * A range yields `start, ..., end` ascending, of length max(0, end - start + 1),
   * except that an `end` equal to the largest `int` makes `end+1` wrap to the
   * smallest and the range yields nothing.
   */
  lemma RangePortsShape(start: int, end: int)
    requires InInt64(start) && InInt64(end)
    ensures end < MaxInt64 ==> RangePorts(start, end) == Run(start, end)
    ensures end < MaxInt64 ==> |RangePorts(start, end)| == if end < start then 0 else end - start + 1
    ensures end < MaxInt64 ==> forall k :: 0 <= k < |RangePorts(start, end)| ==> RangePorts(start, end)[k] == start + k
    ensures end == MaxInt64 ==> RangePorts(start, end) == []
  {
    RunAt(start, Wrap(end + 1) - 1);
  }

  /** What one comma-separated token contributes. */
  function TokenPorts(token: string): seq<int> {
    if '-' in token then
      var dashes := Split(token, '-');
      RangePorts(Atoi(dashes[0]), Atoi(dashes[1]))
    else
      [Atoi(token)]
  }

  /** Each token's contribution, in token order. */
  function Contributions(tokens: seq<string>): seq<seq<int>>
  {
    seq(|tokens|, i requires 0 <= i < |tokens| => TokenPorts(tokens[i]))
  }

  /** The parts concatenated in order. */
  function Flatten(parts: seq<seq<int>>): seq<int>
    decreases |parts|
  {
    if parts == [] then [] else Flatten(parts[..|parts| - 1]) + parts[|parts| - 1]
  }

  function PortsOf(tokens: seq<string>): seq<int> {
    Flatten(Contributions(tokens))
  }

  /** Reference meaning of `parsePortSpec` on a spec string. */
  function PortSpecPorts(spec: string): seq<int> {
    PortsOf(Split(spec, ','))
  }

  /** The counting loop of a range token, appending `start, ..., end` to `ports`. */
  method AppendRange(ports: seq<int>, start: int, end: int) returns (extended: seq<int>)
    requires InInt64(start) && InInt64(end)
    ensures extended == ports + RangePorts(start, end)
  {
    extended := ports;
    var limit := Wrap(end + 1);
    var i := start;
    while i < limit
      invariant start <= i <= if limit < start then start else limit
      invariant extended == ports + Run(start, i - 1)
      decreases limit - i
    {
      extended := extended + [i];
      i := i + 1;
    }
  }

  /** The body of the token loop of `parsePortSpec`: appends what token `commas` contributes. */
  method AppendToken(ports: seq<int>, commas: string) returns (extended: seq<int>)
    ensures extended == ports + TokenPorts(commas)
  {
    if '-' in commas {
      var dashes := Split(commas, '-');
      var start := Atoi(dashes[0]);
      var end := Atoi(dashes[1]);
      extended := AppendRange(ports, start, end);
    } else {
      extended := ports + [Atoi(commas)];
    }
  }

  /** `parsePortSpec`, reading the port spec of `config`. */
  method ParsePortSpec(config: Config) returns (ports: seq<int>)
    ensures ports == PortSpecPorts(config.portSpec)
  {
    ports := [];
    var tokens := Split(config.portSpec, ',');
    for t := 0 to |tokens|
      invariant ports == PortsOf(tokens[..t])
    {
      assert tokens[..t + 1] == tokens[..t] + [tokens[t]];
      PortsOfSnoc(tokens[..t], tokens[t]);
      ports := AppendToken(ports, tokens[t]);
    }
    assert tokens[..|tokens|] == tokens;
  }

  lemma {:induction false} FlattenAppend(xs: seq<seq<int>>, ys: seq<seq<int>>)
    ensures Flatten(xs + ys) == Flatten(xs) + Flatten(ys)
    decreases |ys|
  {
    if ys == [] {
      assert xs + ys == xs;
    } else {
      var n := |ys| - 1;
      assert (xs + ys)[..|xs + ys| - 1] == xs + ys[..n];
      FlattenAppend(xs, ys[..n]);
    }
  }

  /** Appending a token appends its contribution. */
  lemma PortsOfSnoc(tokens: seq<string>, token: string)
    ensures PortsOf(tokens + [token]) == PortsOf(tokens) + TokenPorts(token)
  {
    var parts := Contributions(tokens + [token]);
    assert parts[..|parts| - 1] == Contributions(tokens);
  }

  lemma PortsOfAppend(xs: seq<string>, ys: seq<string>)
    ensures PortsOf(xs + ys) == PortsOf(xs) + PortsOf(ys)
  {
    var whole, left, right := Contributions(xs + ys), Contributions(xs), Contributions(ys);
    assert whole == left + right by {
      forall k | 0 <= k < |whole|
        ensures whole[k] == (left + right)[k]
      {
        if k < |xs| {
          assert (xs + ys)[k] == xs[k];
        } else {
          assert (xs + ys)[k] == ys[k - |xs|];
        }
      }
    }
    FlattenAppend(Contributions(xs), Contributions(ys));
  }

  /**
   * Output is the concatenation, in token order, of each token's
   * contribution: nothing is reordered, merged or deduplicated.
   */
  lemma PortSpecTokens(tokens: seq<string>)
    requires |tokens| >= 1
    requires forall i :: 0 <= i < |tokens| ==> ',' !in tokens[i]
    ensures PortSpecPorts(Join(tokens, ',')) == PortsOf(tokens)
  {
    SplitJoin(tokens, ',');
  }

  /** Joining two specs with a comma concatenates their ports. */
  lemma PortSpecConcat(a: string, b: string)
    ensures PortSpecPorts(a + [','] + b) == PortSpecPorts(a) + PortSpecPorts(b)
  {
    SplitAppend(a, b, ',');
    PortsOfAppend(Split(a, ','), Split(b, ','));
  }

  /** Tokens without `-` contribute exactly one port each, their `atoi` value. */
  lemma {:induction false} PortsOfSingles(tokens: seq<string>)
    requires forall i :: 0 <= i < |tokens| ==> '-' !in tokens[i]
    ensures |PortsOf(tokens)| == |tokens|
    ensures forall k :: 0 <= k < |tokens| ==> PortsOf(tokens)[k] == Atoi(tokens[k])
    decreases |tokens|
  {
    if tokens != [] {
      var n := |tokens| - 1;
      PortsOfSingles(tokens[..n]);
      assert tokens == tokens[..n] + [tokens[n]];
      PortsOfSnoc(tokens[..n], tokens[n]);
    }
  }

  lemma {:induction false} SplitKeepsOut(s: string, sep: char, c: char)
    requires c !in s
    ensures forall i :: 0 <= i < |Split(s, sep)| ==> c !in Split(s, sep)[i]
    decreases |s|
  {
    if s != [] {
      SplitKeepsOut(s[1..], sep, c);
    }
  }

  /**
   * A spec without `-` yields one port per comma-separated token: a comma
   * count plus one ports, the k-th being `atoi` of the k-th token.
   */
  lemma PortSpecWithoutRanges(spec: string)
    requires '-' !in spec
    ensures |PortSpecPorts(spec)| == |Split(spec, ',')| == Count(spec, ',') + 1
    ensures forall k :: 0 <= k < |Split(spec, ',')| ==>
      PortSpecPorts(spec)[k] == Atoi(Split(spec, ',')[k])
  {
    SplitKeepsOut(spec, ',', '-');
    SplitCount(spec, ',');
    PortsOfSingles(Split(spec, ','));
  }

  /** A range token `a-b` contributes the range from `atoi(a)` to `atoi(b)`. */
  lemma RangeToken(a: string, b: string)
    requires '-' !in a && '-' !in b
    ensures TokenPorts(a + ['-'] + b) == RangePorts(Atoi(a), Atoi(b))
  {
    SplitAppend(a, b, '-');
  }

  /** Only the first two `-`-separated fields of a range token are read. */
  lemma RangeTokenIgnoresRest(a: string, b: string, rest: string)
    requires '-' !in a && '-' !in b
    ensures TokenPorts(a + ['-'] + b + ['-'] + rest) == TokenPorts(a + ['-'] + b)
  {
    SplitAppend(a + ['-'] + b, rest, '-');
    SplitAppend(a, b, '-');
  }

  /** No port is negative: a `-` always makes a range, and range fields carry no sign `-`. */
  lemma {:induction false} PortsOfNonNegative(tokens: seq<string>)
    ensures forall k :: 0 <= k < |PortsOf(tokens)| ==> 0 <= PortsOf(tokens)[k] <= MaxInt64
    decreases |tokens|
  {
    if tokens != [] {
      var n := |tokens| - 1;
      PortsOfNonNegative(tokens[..n]);
      var token := tokens[n];
      assert tokens == tokens[..n] + [token];
      PortsOfSnoc(tokens[..n], token);
      if '-' in token {
        var dashes := Split(token, '-');
        RangePortsShape(Atoi(dashes[0]), Atoi(dashes[1]));
      }
    }
  }

  lemma PortSpecNonNegative(spec: string)
    ensures forall k :: 0 <= k < |PortSpecPorts(spec)| ==> 0 <= PortSpecPorts(spec)[k] <= MaxInt64
  {
    PortsOfNonNegative(Split(spec, ','));
  }

  /** A spec with no tokens of its own still has one, empty, field: it yields port 0. */
  lemma EmptySpec()
    ensures PortSpecPorts("") == [0]
  {
    PortsOfSnoc([], "");
  }

  /** `80,80` yields port 80 twice. */
  lemma RepeatedPortKept()
    ensures PortSpecPorts("80,80") == [80, 80]
  {
    assert "80,80" == "80" + [','] + "80";
    PortSpecConcat("80", "80");
    assert PortSpecPorts("80") == [80] by {
      SingleToken("80");
      SmallNumbers();
    }
  }

  /** `5-1` yields nothing. */
  lemma ReversedRangeEmpty()
    ensures PortSpecPorts("5-1") == []
  {
    assert "5-1" == "5" + ['-'] + "1";
    SingleToken("5-1");
    RangeToken("5", "1");
    SmallNumbers();
    RangePortsShape(5, 1);
    assert TokenPorts("5-1") == RangePorts(5, 1);
  }

  /** The `atoi` values the examples below rely on. */
  lemma SmallNumbers()
    ensures Atoi("1") == 1 && Atoi("2") == 2 && Atoi("3") == 3 && Atoi("5") == 5 && Atoi("80") == 80
  {
  }

  /** The ranges the examples below rely on. */
  lemma SmallRanges()
    ensures RangePorts(1, 3) == [1, 2, 3] && RangePorts(1, 2) == [1, 2]
    ensures RangePorts(0, 5) == [0, 1, 2, 3, 4, 5]
  {
    RangePortsShape(1, 3);
    RangePortsShape(1, 2);
    RangePortsShape(0, 5);
  }

  /** `1-3` is inclusive at both ends. */
  lemma InclusiveRange()
    ensures PortSpecPorts("1-3") == [1, 2, 3]
  {
    assert "1-3" == "1" + ['-'] + "3";
    SingleToken("1-3");
    RangeToken("1", "3");
    SmallNumbers();
    SmallRanges();
    assert TokenPorts("1-3") == RangePorts(1, 3);
  }

  /** A spec without `,` is a single token. */
  lemma SingleToken(spec: string)
    requires ',' !in spec
    ensures PortSpecPorts(spec) == TokenPorts(spec)
  {
    PortsOfSnoc([], spec);
  }

  /** `1-2-3` reads only `1-2`. */
  lemma ThirdFieldIgnored()
    ensures PortSpecPorts("1-2-3") == [1, 2]
  {
    SingleToken("1-2-3");
    ThirdFieldToken();
    OneTwoToken();
  }

  lemma ThirdFieldToken()
    ensures TokenPorts("1-2-3") == TokenPorts("1-2")
  {
    assert "1-2" == "1" + ['-'] + "2";
    assert "1-2-3" == "1-2" + ['-'] + "3";
    RangeTokenIgnoresRest("1", "2", "3");
  }

  lemma OneTwoToken()
    ensures TokenPorts("1-2") == [1, 2]
  {
    assert "1-2" == "1" + ['-'] + "2";
    RangeToken("1", "2");
    SmallNumbers();
    SmallRanges();
  }

  /** `-5` has an empty start field, read as 0, so it yields 0 to 5. */
  lemma MissingStartIsZero()
    ensures PortSpecPorts("-5") == [0, 1, 2, 3, 4, 5]
  {
    assert "-5" == "" + ['-'] + "5";
    SingleToken("-5");
    RangeToken("", "5");
    SmallNumbers();
    SmallRanges();
    assert TokenPorts("-5") == RangePorts(0, 5);
  }
}
