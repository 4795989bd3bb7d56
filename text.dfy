/** Vocabulary shared by the server and the client models: an optional
    value (SQL NULL, JavaScript null/undefined, a row that was not found)
    and whitespace trimming parameterised by the set of characters that a
    given language's trim() removes. */
module Text {

  datatype Option<+T> = None | Some(value: T)

  /** Every character of `s` satisfies `p`. */
  predicate All(s: string, p: char -> bool) {
    forall k :: 0 <= k < |s| ==> p(s[k])
  }

  /** Drops the longest prefix of characters satisfying `ws`. */
  function TrimStart(s: string, ws: char -> bool): (r: string)
    ensures |r| <= |s| && r == s[|s| - |r|..]
    ensures forall k :: 0 <= k < |s| - |r| ==> ws(s[k])
    ensures r == [] || !ws(r[0])
  {
    if s != [] && ws(s[0]) then TrimStart(s[1..], ws) else s
  }

  /** Drops the longest suffix of characters satisfying `ws`. */
  function TrimEnd(s: string, ws: char -> bool): (r: string)
    ensures |r| <= |s| && r == s[..|r|]
    ensures forall k :: |r| <= k < |s| ==> ws(s[k])
    ensures r == [] || !ws(r[|r| - 1])
  {
    if s != [] && ws(s[|s| - 1]) then TrimEnd(s[..|s| - 1], ws) else s
  }

  /** Drops leading and trailing characters satisfying `ws`: the result is
      the slice of `s` that starts after the leading run and stops before
      the trailing run, and it neither starts nor ends with such a
      character. */
  function Trim(s: string, ws: char -> bool): (r: string)
    ensures r == [] || (!ws(r[0]) && !ws(r[|r| - 1]))
    ensures var lead := |s| - |TrimStart(s, ws)|;
      && lead + |r| <= |s|
      && r == s[lead..lead + |r|]
      && (forall k :: 0 <= k < lead ==> ws(s[k]))
      && (forall k :: lead + |r| <= k < |s| ==> ws(s[k]))
  {
    var t := TrimStart(s, ws);
    var r := TrimEnd(t, ws);
    var lead := |s| - |t|;
    forall k | lead + |r| <= k < |s|
      ensures ws(s[k])
    {
      assert s[k] == t[k - lead];
    }
    r
  }

  /** Trimming twice is trimming once. */
  lemma TrimIdempotent(s: string, ws: char -> bool)
    ensures Trim(Trim(s, ws), ws) == Trim(s, ws)
  {
    TrimUntouched(Trim(s, ws), ws);
  }

  /** A string that neither starts nor ends with a character `ws` removes
      is its own trim. */
  lemma TrimUntouched(s: string, ws: char -> bool)
    requires s == [] || (!ws(s[0]) && !ws(s[|s| - 1]))
    ensures Trim(s, ws) == s
  {
  }

  /** A character of `s` that `ws` does not remove survives trimming. */
  lemma {:induction false} TrimKeeps(s: string, ws: char -> bool, k: nat)
    requires k < |s| && !ws(s[k])
    ensures var lead := |s| - |TrimStart(s, ws)|;
      lead <= k < lead + |Trim(s, ws)| && Trim(s, ws)[k - lead] == s[k]
  {
  }
}
