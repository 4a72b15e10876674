/** Whitespace trimming as the task service applies it to titles and
    descriptions: Go's strings.TrimSpace, which drops leading and trailing
    characters that unicode.IsSpace classifies as white space. */
module Text {

  /** Go's unicode.IsSpace: the ASCII/Latin-1 spaces and the Unicode
      White_Space characters above U+00FF. */
  predicate IsSpace(c: char) {
    || ('\t' <= c <= '\r') || c == ' ' || c == '\U{0085}' || c == '\U{00A0}' || c == '\U{1680}'
    || ('\U{2000}' <= c <= '\U{200A}') || c == '\U{2028}' || c == '\U{2029}'
    || c == '\U{202F}' || c == '\U{205F}' || c == '\U{3000}'
  }

  /** Every character of s is white space (true of the empty string). */
  predicate AllSpace(s: string) {
    forall i | 0 <= i < |s| :: IsSpace(s[i])
  }

  /** Neither starts nor ends with white space. */
  predicate IsTrimmed(s: string) {
    s == [] || (!IsSpace(s[0]) && !IsSpace(s[|s| - 1]))
  }

  /** strings.TrimSpace: white space dropped from the front, then from the
      back. The result is empty exactly when s is all white space, and has
      no white space left at either end; TrimRemovesOnlySpace says that s is
      the result surrounded by white space only, and TrimPadded that no
      other string is. */
  function Trim(s: string): (r: string)
    ensures r == [] <==> AllSpace(s)
    ensures IsTrimmed(r)
    decreases |s|
  {
    if |s| > 0 && IsSpace(s[0]) then
      AllSpaceWithoutFirst(s);
      Trim(s[1..])
    else if |s| > 0 && IsSpace(s[|s| - 1]) then
      AllSpaceWithoutLast(s);
      Trim(s[..|s| - 1])
    else
      s
  }

  lemma AllSpaceWithoutFirst(s: string)
    requires |s| > 0 && IsSpace(s[0])
    ensures AllSpace(s) <==> AllSpace(s[1..])
  {
  }

  lemma AllSpaceWithoutLast(s: string)
    requires |s| > 0 && IsSpace(s[|s| - 1])
    ensures AllSpace(s) <==> AllSpace(s[..|s| - 1])
  {
  }

  /** Trim undoes padding: white space added around a string that neither
      starts nor ends with white space is exactly what Trim removes. */
  lemma {:induction false} TrimPadded(lead: string, core: string, trail: string)
    requires AllSpace(lead) && AllSpace(trail)
    requires IsTrimmed(core)
    ensures Trim(lead + core + trail) == core
    decreases |lead| + 2 * |trail|
  {
    if lead != [] {
      WithoutFirst(lead, core, trail);
      AllSpaceWithoutFirst(lead);
      TrimPadded(lead[1..], core, trail);
    } else if core == [] && trail != [] {
      assert lead + core + trail == trail + [] + [];
      TrimPadded(trail, [], []);
    } else if trail != [] {
      WithoutLast(lead, core, trail);
      AllSpaceWithoutLast(trail);
      TrimPadded([], core, trail[..|trail| - 1]);
    } else {
      assert lead + core + trail == core;
    }
  }

  lemma WithoutFirst<T>(l: seq<T>, m: seq<T>, t: seq<T>)
    requires |l| > 0
    ensures (l + m + t)[0] == l[0]
    ensures (l + m + t)[1..] == l[1..] + m + t
  {
  }

  lemma WithoutLast<T>(l: seq<T>, m: seq<T>, t: seq<T>)
    requires |m| > 0 && |t| > 0
    ensures (l + m + t)[|l|] == m[0]
    ensures (l + m + t)[|l + m + t| - 1] == t[|t| - 1]
    ensures (l + m + t)[..|l + m + t| - 1] == l + m + t[..|t| - 1]
  {
  }

  /** Trimming leaves a trimmed string as it is; in particular trimming
      twice trims no more than trimming once. */
  lemma TrimFixesTrimmed(s: string)
    requires IsTrimmed(s)
    ensures Trim(s) == s
  {
  }

  lemma SpacePrepended(c: char, s: string)
    requires IsSpace(c) && AllSpace(s)
    ensures AllSpace([c] + s)
  {
  }

  lemma SpaceAppended(s: string, c: char)
    requires AllSpace(s) && IsSpace(c)
    ensures AllSpace(s + [c])
  {
  }

  /** What Trim removes is white space, from the two ends only. */
  lemma TrimRemovesOnlySpace(s: string)
    ensures exists lead: string, trail: string :: s == lead + Trim(s) + trail && AllSpace(lead) && AllSpace(trail)
  {
    var lead, trail := TrimmedPart(s);
  }

  /** The white space Trim cuts off the front and the back of s. */
  lemma {:induction false} TrimmedPart(s: string) returns (lead: string, trail: string)
    ensures s == lead + Trim(s) + trail && AllSpace(lead) && AllSpace(trail)
    decreases |s|
  {
    if |s| > 0 && IsSpace(s[0]) {
      var l, t := TrimmedPart(s[1..]);
      SpacePrepended(s[0], l);
      Regroup(s, l, Trim(s), t);
      lead, trail := [s[0]] + l, t;
    } else if |s| > 0 && IsSpace(s[|s| - 1]) {
      var l, t := TrimmedPart(s[..|s| - 1]);
      SpaceAppended(t, s[|s| - 1]);
      RegroupLast(s, l, Trim(s), t);
      lead, trail := l, t + [s[|s| - 1]];
    } else {
      lead, trail := [], [];
    }
  }

  lemma Regroup<T>(s: seq<T>, l: seq<T>, m: seq<T>, t: seq<T>)
    requires |s| > 0 && s[1..] == l + m + t
    ensures s == ([s[0]] + l) + m + t
  {
  }

  lemma RegroupLast<T>(s: seq<T>, l: seq<T>, m: seq<T>, t: seq<T>)
    requires |s| > 0 && s[..|s| - 1] == l + m + t
    ensures s == l + m + (t + [s[|s| - 1]])
  {
  }
}
