/**
 * The two functions of Go's `strings` package that the parsers rely on:
 * `Split` with a one-character separator and `Trim` with a one-character
 * cutset. `Join` is there as the inverse of `Split`.
 */
module GoStrings {

  /** Number of occurrences of `c` in `s`. */
  function Count(s: string, c: char): nat {
    if s == [] then 0 else (if s[0] == c then 1 else 0) + Count(s[1..], c)
  }

  /**
   * `strings.Split(s, string(sep))`: the maximal pieces of `s` between
   * occurrences of `sep`. There is always at least one field, so the empty
   * string splits to `[""]`.
   */
  function Split(s: string, sep: char): (fields: seq<string>)
    ensures |fields| >= 1
    ensures forall i :: 0 <= i < |fields| ==> sep !in fields[i]
    ensures sep !in s ==> fields == [s]
    ensures sep in s ==> |fields| >= 2
    decreases |s|
  {
    if s == [] then [""]
    else
      var rest := Split(s[1..], sep);
      if s[0] == sep then [""] + rest
      else
        assert sep !in s ==> [s[0]] + s[1..] == s;
        [[s[0]] + rest[0]] + rest[1..]
  }

  /** `strings.Join(fields, string(sep))`. */
  function Join(fields: seq<string>, sep: char): string
    decreases |fields|
  {
    if fields == [] then ""
    else if |fields| == 1 then fields[0]
    else fields[0] + [sep] + Join(fields[1..], sep)
  }

  /** Splitting at an occurrence of the separator splits the two sides independently. */
  lemma {:induction false} SplitAppend(a: string, b: string, sep: char)
    ensures Split(a + [sep] + b, sep) == Split(a, sep) + Split(b, sep)
    decreases |a|
  {
    if a == [] {
      assert a + [sep] + b == [sep] + b;
      SplitCons(sep, b, sep);
    } else {
      var t := a[1..] + [sep] + b;
      assert Split(a + [sep] + b, sep) == ConsField(a[0], sep, Split(t, sep)) by {
        assert [a[0]] + t == a + [sep] + b;
        SplitCons(a[0], t, sep);
      }
      assert Split(a, sep) == ConsField(a[0], sep, Split(a[1..], sep)) by {
        assert [a[0]] + a[1..] == a;
        SplitCons(a[0], a[1..], sep);
      }
      SplitAppend(a[1..], b, sep);
      ConsFieldAppend(a[0], sep, Split(a[1..], sep), Split(b, sep));
    }
  }

  /** The field-list step of `SplitCons` commutes with appending further fields. */
  lemma ConsFieldAppend(c: char, sep: char, left: seq<string>, right: seq<string>)
    requires |left| >= 1
    ensures ConsField(c, sep, left + right) == ConsField(c, sep, left) + right
  {
    if c != sep {
      assert (left + right)[0] == left[0];
      assert (left + right)[1..] == left[1..] + right;
    }
  }

  /** The fields of `[c] + t`, given the fields `rest` of `t`. */
  function ConsField(c: char, sep: char, rest: seq<string>): seq<string>
    requires |rest| >= 1
  {
    if c == sep then [""] + rest else [[c] + rest[0]] + rest[1..]
  }

  /** `Split` of a string with a known first character, one step unfolded. */
  lemma SplitCons(c: char, t: string, sep: char)
    ensures Split([c] + t, sep) == ConsField(c, sep, Split(t, sep))
  {
    assert ([c] + t)[0] == c && ([c] + t)[1..] == t;
  }

  /** There is one field more than there are separators. */
  lemma {:induction false} SplitCount(s: string, sep: char)
    ensures |Split(s, sep)| == Count(s, sep) + 1
    decreases |s|
  {
    if s != [] {
      SplitCount(s[1..], sep);
    }
  }

  /** Joining the fields back with the separator gives the original string. */
  lemma {:induction false} JoinSplit(s: string, sep: char)
    ensures Join(Split(s, sep), sep) == s
    decreases |s|
  {
    if s != [] {
      var rest := Split(s[1..], sep);
      JoinSplit(s[1..], sep);
      if s[0] == sep {
        assert Split(s, sep) == [""] + rest;
        assert ([""] + rest)[1..] == rest;
      } else {
        var fields := Split(s, sep);
        assert fields[0] == [s[0]] + rest[0];
        assert fields[1..] == rest[1..];
        if |rest| == 1 {
          assert fields == [[s[0]] + rest[0]];
        } else {
          assert Join(rest, sep) == rest[0] + [sep] + Join(rest[1..], sep);
        }
      }
    }
  }

  /** Splitting a join of separator-free fields gives the fields back. */
  lemma {:induction false} SplitJoin(fields: seq<string>, sep: char)
    requires |fields| >= 1
    requires forall i :: 0 <= i < |fields| ==> sep !in fields[i]
    ensures Split(Join(fields, sep), sep) == fields
    decreases |fields|
  {
    if |fields| == 1 {
    } else {
      var tail := Join(fields[1..], sep);
      assert Join(fields, sep) == fields[0] + [sep] + tail;
      assert Split(tail, sep) == fields[1..] by {
        SplitJoin(fields[1..], sep);
      }
      assert Split(fields[0], sep) == [fields[0]];
      SplitAppend(fields[0], tail, sep);
      assert [fields[0]] + fields[1..] == fields;
    }
  }

  /** `r` is `s` with some `cut` characters removed from each end. */
  ghost predicate TrimmedFrom(r: string, s: string, cut: char) {
    exists i, j :: 0 <= i <= j <= |s| && r == s[i..j] &&
      (forall k :: 0 <= k < i ==> s[k] == cut) &&
      (forall k :: j <= k < |s| ==> s[k] == cut)
  }

  /** `r` neither starts nor ends with `cut`. */
  predicate Unpadded(r: string, cut: char) {
    r == [] || (r[0] != cut && r[|r| - 1] != cut)
  }

  /** Length of the longest prefix of `s` made only of `cut`. */
  function Leading(s: string, cut: char): (n: nat)
    ensures n <= |s|
    ensures forall k :: 0 <= k < n ==> s[k] == cut
    ensures n < |s| ==> s[n] != cut
  {
    if s != [] && s[0] == cut then 1 + Leading(s[1..], cut) else 0
  }

  /** Length of the longest suffix of `s` made only of `cut`. */
  function Trailing(s: string, cut: char): (n: nat)
    ensures n <= |s|
    ensures forall k :: |s| - n <= k < |s| ==> s[k] == cut
    ensures n < |s| ==> s[|s| - 1 - n] != cut
  {
    if s != [] && s[|s| - 1] == cut then 1 + Trailing(s[..|s| - 1], cut) else 0
  }

  /**
   * `strings.Trim(s, string(cut))`: removes every leading and trailing `cut`;
   * characters other than `cut` (tabs, say) are kept.
   */
  function Trim(s: string, cut: char): (r: string)
    ensures Unpadded(r, cut)
    ensures TrimmedFrom(r, s, cut)
  {
    var i := Leading(s, cut);
    var j := if i == |s| then |s| else |s| - Trailing(s, cut);
    s[i..j]
  }

  /** Trimming is characterised by `TrimmedFrom` and `Unpadded`: no other string meets both. */
  lemma TrimUnique(r: string, s: string, cut: char)
    requires TrimmedFrom(r, s, cut) && Unpadded(r, cut)
    ensures r == Trim(s, cut)
  {
    var i, j :| 0 <= i <= j <= |s| && r == s[i..j] &&
      (forall k :: 0 <= k < i ==> s[k] == cut) &&
      (forall k :: j <= k < |s| ==> s[k] == cut);
    var l := Leading(s, cut);
    var t := Trailing(s, cut);
    if r == [] {
      assert forall k :: 0 <= k < |s| ==> s[k] == cut by {
        forall k | 0 <= k < |s| ensures s[k] == cut {
          if k >= i { assert k >= j; }
        }
      }
      assert l == |s|;
    } else {
      assert s[i] != cut && s[j - 1] != cut;
      assert l == i;
      assert |s| - t == j;
    }
  }

  /** Trimming twice is trimming once. */
  lemma TrimIdempotent(s: string, cut: char)
    ensures Trim(Trim(s, cut), cut) == Trim(s, cut)
  {
    var r := Trim(s, cut);
    assert r[0..|r|] == r;
    TrimUnique(r, r, cut);
  }
}
