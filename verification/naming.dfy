/**
 * Raw output mode: the output path is split at its last '.', and image i of
 * the concatenated batch is saved under `name + "." + str(i) + "." + suffix`.
 */
module RawNaming {
  import opened Common
  import Decoding

  /** Python's `s.split(sep)` for a one-character separator: the pieces between separators, in order. */
  function Split(s: string, sep: char): (parts: seq<string>)
    ensures |parts| >= 1
    ensures forall k :: 0 <= k < |parts| ==> sep !in parts[k]
    decreases |s|
  {
    if |s| == 0 then [""]
    else
      var rest := Split(s[1..], sep);
      if s[0] == sep then [""] + rest
      else [[s[0]] + rest[0]] + rest[1..]
  }

  /** Python's `sep.join(parts)`. */
  function Join(parts: seq<string>, sep: char): (s: string)
    ensures |parts| >= 1 ==> |parts[0]| <= |s| && s[..|parts[0]|] == parts[0]
    ensures |parts| >= 2 ==> |parts[0]| < |s| && s[|parts[0]|] == sep
  {
    if |parts| == 0 then ""
    else if |parts| == 1 then parts[0]
    else parts[0] + [sep] + Join(parts[1..], sep)
  }

  /** Joining the pieces of a split gives back the original string. */
  lemma {:induction false} JoinSplit(s: string, sep: char)
    ensures Join(Split(s, sep), sep) == s
    decreases |s|
  {
    if |s| > 0 {
      var rest := Split(s[1..], sep);
      JoinSplit(s[1..], sep);
      if s[0] == sep {
        assert ([""] + rest)[1..] == rest;
      } else if |rest| > 1 {
        var parts := Split(s, sep);
        assert parts[1..] == rest[1..];
        assert Join(rest, sep) == rest[0] + [sep] + Join(rest[1..], sep);
        assert s == [s[0]] + s[1..];
      } else {
        assert s == [s[0]] + s[1..];
      }
    }
  }

  /** Joining two or more pieces puts the separator between the last piece and the rest. */
  lemma {:induction false} JoinLast(parts: seq<string>, sep: char)
    requires |parts| >= 2
    ensures Join(parts, sep) == Join(parts[..|parts| - 1], sep) + [sep] + parts[|parts| - 1]
    decreases |parts|
  {
    if |parts| > 2 {
      JoinLast(parts[1..], sep);
      assert parts[1..][..|parts| - 2] == parts[..|parts| - 1][1..];
    }
  }

  /** A string splits into more than one piece exactly when it contains the separator. */
  lemma SplitCount(s: string, sep: char)
    ensures |Split(s, sep)| == 1 <==> sep !in s
  {
    var parts := Split(s, sep);
    JoinSplit(s, sep);
    if |parts| >= 2 {
      JoinLast(parts, sep);
      var init := Join(parts[..|parts| - 1], sep);
      assert s[|init|] == sep;
    }
  }

  /** The output path with its last extension taken off. */
  datatype OutputPath = OutputPath(name: string, suffix: string)

  /**
   * `*name, suffix = output.split(".")` and `name = ".".join(name)`: the suffix
   * is what follows the last '.', the name what precedes it; a path with no
   * '.' is all suffix and an empty name.
   */
  function SplitOutput(output: string): (p: OutputPath)
    ensures '.' !in p.suffix
    ensures '.' in output ==> output == p.name + "." + p.suffix
    ensures '.' !in output ==> p.name == "" && p.suffix == output
  {
    var parts := Split(output, '.');
    JoinSplit(output, '.');
    SplitCount(output, '.');
    var p := OutputPath(Join(parts[..|parts| - 1], '.'), parts[|parts| - 1]);
    assert '.' in output ==> output == p.name + "." + p.suffix by {
      if |parts| >= 2 {
        JoinLast(parts, '.');
      }
    }
    p
  }

  predicate IsDigits(s: string)
  {
    forall k :: 0 <= k < |s| ==> '0' <= s[k] <= '9'
  }

  /** Python's `str(n)` for a natural number: its decimal digits, most significant first. */
  function DecimalString(n: nat): (s: string)
    ensures |s| >= 1 && IsDigits(s)
    ensures n == 0 || s[0] != '0'
  {
    var digit := ('0' as int + n % 10) as char;
    if n < 10 then [digit] else DecimalString(n / 10) + [digit]
  }

  /** The value of a string of decimal digits (the inverse of DecimalString). */
  function ParseDecimal(s: string): nat
    requires IsDigits(s)
  {
    if |s| == 0 then 0 else ParseDecimal(s[..|s| - 1]) * 10 + (s[|s| - 1] as int - '0' as int)
  }

  lemma {:induction false} ParseDecimalString(n: nat)
    ensures ParseDecimal(DecimalString(n)) == n
  {
    var s := DecimalString(n);
    if n < 10 {
      assert s[..0] == [];
    } else {
      assert s[..|s| - 1] == DecimalString(n / 10);
      ParseDecimalString(n / 10);
    }
  }

  /** `".".join([name, str(i), suffix])`: the path raw-mode image i is saved to. */
  function RawName(p: OutputPath, i: nat): (path: string)
    ensures path == p.name + "." + DecimalString(i) + "." + p.suffix
  {
    var parts := [p.name, DecimalString(i), p.suffix];
    assert parts[1..][1..] == [p.suffix];
    assert Join(parts[1..], '.') == DecimalString(i) + "." + p.suffix;
    Join(parts, '.')
  }

  /** Distinct image indices get distinct paths. */
  lemma RawNameInjective(p: OutputPath, i: nat, j: nat)
    ensures RawName(p, i) == RawName(p, j) ==> i == j
  {
    var a, b := DecimalString(i), DecimalString(j);
    if RawName(p, i) == RawName(p, j) {
      var s := RawName(p, i);
      var start := |p.name| + 1;
      assert |a| == |b|;
      assert a == s[start .. start + |a|];
      assert b == RawName(p, j)[start .. start + |b|];
      ParseDecimalString(i);
      ParseDecimalString(j);
    }
  }

  /** Images saved under RawName(p, 0), RawName(p, 1), ... never share a path. */
  lemma DistinctPaths<P>(p: OutputPath, saved: seq<SavedImage<P>>)
    requires forall i :: 0 <= i < |saved| ==> saved[i].path == RawName(p, i)
    ensures forall i, j :: 0 <= i < j < |saved| ==> saved[i].path != saved[j].path
  {
    forall i, j | 0 <= i < j < |saved| ensures saved[i].path != saved[j].path {
      RawNameInjective(p, i, j);
    }
  }

  /** One image written to disk by `im.save(path)`; the 8-bit quantization is not modelled. */
  datatype SavedImage<P> = SavedImage(path: string, image: P)

  /** The loop `for i in range(len(x))` saving `x[i]`: image i is saved under RawName(p, i), in order. */
  method SaveEach<P>(p: OutputPath, x: seq<P>) returns (saved: seq<SavedImage<P>>)
    ensures |saved| == |x|
    ensures forall i :: 0 <= i < |x| ==> saved[i] == SavedImage(RawName(p, i), x[i])
  {
    saved := [];
    for i := 0 to |x|
      invariant |saved| == i
      invariant forall k :: 0 <= k < i ==> saved[k] == SavedImage(RawName(p, k), x[k])
    {
      saved := saved + [SavedImage(RawName(p, i), x[i])];
    }
  }

  /**
   * Raw mode (lines 127-133): split the output path, concatenate the decoded
   * sub-batches and save image i of the result under RawName(.., i).
   */
  method SaveRaw<P>(output: string, decoded: seq<seq<P>>)
    returns (r: Result<seq<SavedImage<P>>, Failure>)
    ensures r.Err? <==> |decoded| == 0
    ensures r.Ok? ==> |r.value| == |Flatten(decoded)|
    ensures r.Ok? ==> forall i :: 0 <= i < |r.value| ==>
              r.value[i] == SavedImage(RawName(SplitOutput(output), i), Flatten(decoded)[i])
    ensures r.Ok? ==> forall i, j :: 0 <= i < j < |r.value| ==> r.value[i].path != r.value[j].path
  {
    var p := SplitOutput(output);
    var joined := Decoding.Concatenate(decoded);
    if joined.Err? {
      return Err(joined.error);
    }
    var saved := SaveEach(p, joined.value);
    DistinctPaths(p, saved);
    r := Ok(saved);
  }
}
