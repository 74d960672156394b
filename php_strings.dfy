/**
 * The two PHP string primitives the splitter relies on, stated exactly:
 * `fgets` without a length (read through the next newline or to the end of the data)
 * and `trim` with an explicit character list (strip those characters from both ends).
 */
module PhpStrings {

  /**
   * The position just past the line that starts at `pos`: past the next '\n',
   * or the end of the data when no '\n' remains. `fgets` returns
   * `data[pos..LineEnd(data, pos)]` and leaves the stream at `LineEnd(data, pos)`.
   */
  function LineEnd(data: string, pos: nat): (end: nat)
    requires pos < |data|
    ensures pos < end <= |data|
    ensures forall k :: pos <= k < end - 1 ==> data[k] != '\n'
    ensures end == |data| || data[end - 1] == '\n'
    decreases |data| - pos
  {
    if data[pos] == '\n' || pos + 1 == |data| then pos + 1 else LineEnd(data, pos + 1)
  }

  /** The three facts about `LineEnd` pin it down: a line ends at its first newline. */
  lemma LineEndAt(data: string, pos: nat, m: nat)
    requires pos + m < |data|
    requires forall k :: pos <= k < pos + m ==> data[k] != '\n'
    requires data[pos + m] == '\n'
    ensures LineEnd(data, pos) == pos + m + 1
  {
  }

  /** `ltrim($s, $chars)`: drop leading characters that are in `cs`. */
  function TrimLeft(s: string, cs: set<char>): (r: string)
    ensures |r| <= |s| && r == s[|s| - |r|..]
    ensures r != [] ==> r[0] !in cs
    ensures forall k :: 0 <= k < |s| - |r| ==> s[k] in cs
  {
    if s != [] && s[0] in cs then TrimLeft(s[1..], cs) else s
  }

  /** `rtrim($s, $chars)`: drop trailing characters that are in `cs`. */
  function TrimRight(s: string, cs: set<char>): (r: string)
    ensures |r| <= |s| && r == s[..|r|]
    ensures r != [] ==> r[|r| - 1] !in cs
    ensures forall k :: |r| <= k < |s| ==> s[k] in cs
  {
    if s != [] && s[|s| - 1] in cs then TrimRight(s[..|s| - 1], cs) else s
  }

  /** True when `r` is `s[i..i + |r|]` and everything of `s` outside that slice is in `cs`. */
  ghost predicate TrimmedAt(r: string, s: string, cs: set<char>, i: nat)
  {
    && i + |r| <= |s|
    && r == s[i..i + |r|]
    && (forall k :: 0 <= k < i ==> s[k] in cs)
    && (forall k :: i + |r| <= k < |s| ==> s[k] in cs)
  }

  /** True when `r` is `s` with some characters of `cs` removed from each end and nothing else. */
  ghost predicate IsTrimOf(r: string, s: string, cs: set<char>)
  {
    exists i: nat :: TrimmedAt(r, s, cs, i)
  }

  /**
   * `trim($s, $chars)`: the result neither begins nor ends with a character of `cs`,
   * and it is the middle of `s`: only characters of `cs` were cut, from the two ends.
   */
  function Trim(s: string, cs: set<char>): (r: string)
    ensures r == [] || (r[0] !in cs && r[|r| - 1] !in cs)
    ensures IsTrimOf(r, s, cs)
  {
    TrimIsMiddle(s, cs);
    TrimRight(TrimLeft(s, cs), cs)
  }

  /** Helper for `Trim`: the two one-sided trims leave a middle slice of `s`. */
  lemma TrimIsMiddle(s: string, cs: set<char>)
    ensures TrimmedAt(TrimRight(TrimLeft(s, cs), cs), s, cs, |s| - |TrimLeft(s, cs)|)
  {
    var t := TrimLeft(s, cs);
    var r := TrimRight(t, cs);
    MiddleSlice(s, t, r, |s| - |t|);
  }

  /** Helper for `TrimIsMiddle`: a prefix of a suffix of `s` is a slice of `s`. */
  lemma MiddleSlice(s: string, t: string, r: string, i: nat)
    requires i <= |s| && t == s[i..] && |r| <= |t| && r == t[..|r|]
    ensures r == s[i..i + |r|]
    ensures forall k :: i + |r| <= k < |s| ==> s[k] == t[k - i]
  {
  }

  /** A string that neither begins nor ends with a character of `cs` is left as it is. */
  lemma TrimUntrimmed(s: string, cs: set<char>)
    requires s == [] || (s[0] !in cs && s[|s| - 1] !in cs)
    ensures Trim(s, cs) == s
  {
  }

  /** Trimming twice with the same characters is trimming once. */
  lemma TrimIdempotent(s: string, cs: set<char>)
    ensures Trim(Trim(s, cs), cs) == Trim(s, cs)
  {
    TrimUntrimmed(Trim(s, cs), cs);
  }

  /** A string made only of characters in `cs` trims away entirely from the left. */
  lemma {:induction false} TrimLeftAll(t: string, cs: set<char>)
    requires forall k :: 0 <= k < |t| ==> t[k] in cs
    ensures TrimLeft(t, cs) == []
    decreases |t|
  {
    if t != [] {
      TrimLeftAll(t[1..], cs);
    }
  }

  /** Appending characters of `cs` does not change what the left trim stops at. */
  lemma {:induction false} TrimLeftAppend(s: string, t: string, cs: set<char>)
    requires forall k :: 0 <= k < |t| ==> t[k] in cs
    ensures TrimLeft(s + t, cs) == if TrimLeft(s, cs) == [] then [] else TrimLeft(s, cs) + t
    decreases |s|
  {
    if s == [] {
      assert s + t == t;
      TrimLeftAll(t, cs);
    } else if s[0] in cs {
      assert (s + t)[1..] == s[1..] + t;
      TrimLeftAppend(s[1..], t, cs);
    }
  }

  /** Appending characters of `cs` is undone by the right trim. */
  lemma {:induction false} TrimRightAppend(u: string, t: string, cs: set<char>)
    requires forall k :: 0 <= k < |t| ==> t[k] in cs
    ensures TrimRight(u + t, cs) == TrimRight(u, cs)
    decreases |t|
  {
    if t != [] {
      var t' := t[..|t| - 1];
      assert (u + t)[..|u + t| - 1] == u + t';
      TrimRightAppend(u, t', cs);
    } else {
      assert u + t == u;
    }
  }

  /** Trailing characters of `cs` make no difference to the trim: `trim($s . "\r\n", "\r\n") == trim($s, "\r\n")`. */
  lemma TrimDropsSuffix(s: string, t: string, cs: set<char>)
    requires forall k :: 0 <= k < |t| ==> t[k] in cs
    ensures Trim(s + t, cs) == Trim(s, cs)
  {
    TrimLeftAppend(s, t, cs);
    if TrimLeft(s, cs) != [] {
      TrimRightAppend(TrimLeft(s, cs), t, cs);
    }
  }
}
