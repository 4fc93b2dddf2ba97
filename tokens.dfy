/** The image-sequence string as the views see it: image names joined by
    commas. The register view counts images with Python's `str.split(',')`,
    which keeps empty pieces (`"a,,b,c"` has four). */
module Tokens {

  const Comma: char := ','

  /** Number of separators in `s`. */
  function CommaCount(s: string): nat {
    if s == [] then 0
    else (if s[0] == Comma then 1 else 0) + CommaCount(s[1..])
  }

  predicate CommaFree(t: string) {
    Comma !in t
  }

  predicate AllCommaFree(ts: seq<string>) {
    forall i :: 0 <= i < |ts| ==> CommaFree(ts[i])
  }

  /** Python's `s.split(',')`: the maximal comma-free pieces of `s`, in order,
      empty pieces included; the empty string gives one empty piece. */
  function Split(s: string): (parts: seq<string>)
    ensures |parts| == CommaCount(s) + 1
  {
    if s == [] then [""]
    else
      var rest := Split(s[1..]);
      if s[0] == Comma then [""] + rest
      else [[s[0]] + rest[0]] + rest[1..]
  }

  /** No piece of a split contains the separator. */
  lemma {:induction false} SplitPiecesCommaFree(s: string)
    ensures AllCommaFree(Split(s))
  {
    if s != [] {
      SplitPiecesCommaFree(s[1..]);
      var rest := Split(s[1..]);
      if s[0] != Comma {
        assert CommaFree(rest[0]);
        assert CommaFree([s[0]] + rest[0]);
      }
    }
  }

  /** `','.join(parts)`: how the image grid builds the submitted string. */
  function Join(parts: seq<string>): string
    requires |parts| >= 1
  {
    if |parts| == 1 then parts[0]
    else parts[0] + [Comma] + Join(parts[1..])
  }

  /** Joining the pieces of a split gives back the string: splitting loses nothing. */
  lemma {:induction false} JoinSplit(s: string)
    ensures Join(Split(s)) == s
  {
    if s != [] {
      var rest := Split(s[1..]);
      JoinSplit(s[1..]);
      if s[0] == Comma {
        assert Split(s) == [""] + rest;
        assert ([""] + rest)[1..] == rest;
      } else {
        var parts := [[s[0]] + rest[0]] + rest[1..];
        assert Split(s) == parts;
        if |rest| == 1 {
          assert Join(parts) == [s[0]] + rest[0];
        } else {
          assert parts[1..] == rest[1..];
          assert Join(rest) == rest[0] + [Comma] + Join(rest[1..]);
        }
      }
    }
  }

  /** Splitting a comma-free prefix followed by anything glues the prefix
      onto the first piece of the rest. */
  lemma {:induction false} SplitCommaFreePrefix(t: string, rest: string)
    requires CommaFree(t)
    ensures Split(t + rest) == [t + Split(rest)[0]] + Split(rest)[1..]
  {
    if t != [] {
      assert (t + rest)[1..] == t[1..] + rest;
      SplitCommaFreePrefix(t[1..], rest);
      assert t[0] != Comma;
      assert [t[0]] + (t[1..] + Split(rest)[0]) == t + Split(rest)[0];
    } else {
      var parts := Split(rest);
      assert t + rest == rest && t + parts[0] == parts[0];
      assert parts == [parts[0]] + parts[1..];
    }
  }

  /** Splitting a join of comma-free names gives the names back, in order. */
  lemma {:induction false} SplitJoin(ts: seq<string>)
    requires |ts| >= 1
    requires AllCommaFree(ts)
    ensures Split(Join(ts)) == ts
  {
    if |ts| == 1 {
      SplitCommaFreePrefix(ts[0], "");
      assert ts[0] + "" == ts[0];
    } else {
      var tail := Join(ts[1..]);
      SplitJoin(ts[1..]);
      assert Join(ts) == ts[0] + ([Comma] + tail);
      SplitCommaFreePrefix(ts[0], [Comma] + tail);
      assert ([Comma] + tail)[1..] == tail;
      assert Split([Comma] + tail) == [""] + ts[1..];
      assert ts[0] + "" == ts[0];
    }
  }

  /** Distinct lists of comma-free names join to distinct strings: in
      particular, the same images in another order give another string. */
  lemma JoinInjective(ts: seq<string>, us: seq<string>)
    requires |ts| >= 1 && |us| >= 1
    requires AllCommaFree(ts) && AllCommaFree(us)
    ensures Join(ts) == Join(us) <==> ts == us
  {
    SplitJoin(ts);
    SplitJoin(us);
  }

  /** The number of images the register view counts for a joined selection
      is the number of names selected. */
  lemma ImageCountOfJoin(ts: seq<string>)
    requires |ts| >= 1
    requires AllCommaFree(ts)
    ensures |Split(Join(ts))| == |ts|
  {
    SplitJoin(ts);
  }

  function Reverse(ts: seq<string>): (r: seq<string>)
    ensures |r| == |ts|
    ensures forall i :: 0 <= i < |ts| ==> r[i] == ts[|ts| - 1 - i]
  {
    if ts == [] then [] else Reverse(ts[1..]) + [ts[0]]
  }
}
