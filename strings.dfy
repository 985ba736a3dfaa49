/** The JavaScript string operations the schedulers use to take alarm names apart. */
module Strings {
  import opened Wrappers

  /** `s.endsWith(suffix)` */
  predicate EndsWith(s: string, suffix: string) {
    |suffix| <= |s| && s[|s| - |suffix|..] == suffix
  }

  predicate OccursAt(s: string, pat: string, i: int) {
    0 <= i && i + |pat| <= |s| && s[i..i + |pat|] == pat
  }

  /** `s.indexOf(pat)`: the first position at which `pat` occurs in `s`, if any. */
  function IndexOf(s: string, pat: string): (r: Option<nat>)
    ensures r.Some? ==> OccursAt(s, pat, r.value)
    ensures r.Some? ==> forall j :: 0 <= j < r.value ==> !OccursAt(s, pat, j)
    ensures r.None? ==> forall j :: !OccursAt(s, pat, j)
    decreases |s|
  {
    if |s| < |pat| then None
    else if s[..|pat|] == pat then Some(0)
    else
      ShiftOccurs(s, pat);
      match IndexOf(s[1..], pat)
      case None => None
      case Some(i) => Some(i + 1)
  }

  /** An occurrence past the first character of `s` is one in `s[1..]`, shifted. */
  lemma ShiftOccurs(s: string, pat: string)
    requires |s| > 0
    ensures forall j :: j >= 1 ==> (OccursAt(s, pat, j) <==> OccursAt(s[1..], pat, j - 1))
  {
    forall j | j >= 1
      ensures OccursAt(s, pat, j) <==> OccursAt(s[1..], pat, j - 1)
    {
      if j + |pat| <= |s| {
        assert s[1..][j - 1..j - 1 + |pat|] == s[j..j + |pat|];
      }
    }
  }

  /** `s.replace(pat, rep)` with a string pattern: only the first occurrence is replaced. */
  function ReplaceFirst(s: string, pat: string, rep: string): (r: string)
    ensures EndsWith(s, pat) ==> |r| == |s| - |pat| + |rep|
  {
    assert EndsWith(s, pat) ==> OccursAt(s, pat, |s| - |pat|);
    match IndexOf(s, pat)
    case None => s
    case Some(i) => s[..i] + rep + s[i + |pat|..]
  }

  /** The first field of `s.split([sep])`. */
  function FirstField(s: string, sep: char): string {
    match IndexOf(s, [sep])
    case None => s
    case Some(i) => s[..i]
  }

  /** The second field of `s.split([sep])`, or None (`undefined`) when `sep` does not occur. */
  function SecondField(s: string, sep: char): Option<string> {
    match IndexOf(s, [sep])
    case None => None
    case Some(i) => Some(FirstField(s[i + 1..], sep))
  }

  /** In `x + pat`, where `x` does not contain the first character of `pat`,
      the first occurrence of `pat` is the one appended. */
  lemma IndexOfAppended(x: string, pat: string)
    requires |pat| > 0 && pat[0] !in x
    ensures IndexOf(x + pat, pat) == Some(|x|)
  {
    var s := x + pat;
    assert s[|x|..|x| + |pat|] == pat;
    assert OccursAt(s, pat, |x|);
    var r := IndexOf(s, pat);
    assert r.Some?;
  }

  /** Removing the first occurrence of `pat` from `x + pat` gives back `x` when
      `x` does not contain the first character of `pat`. */
  lemma ReplaceFirstAppended(x: string, pat: string)
    requires |pat| > 0 && pat[0] !in x
    ensures ReplaceFirst(x + pat, pat, "") == x
  {
    IndexOfAppended(x, pat);
    assert (x + pat)[..|x|] == x;
  }

  /** A one-character pattern occurs exactly at the positions holding that character. */
  lemma OccursSingle(s: string, c: char)
    ensures forall i :: OccursAt(s, [c], i) <==> 0 <= i < |s| && s[i] == c
  {
    forall i
      ensures OccursAt(s, [c], i) <==> 0 <= i < |s| && s[i] == c
    {
      if 0 <= i < |s| {
        assert s[i..i + 1] == [s[i]];
      }
    }
  }

  /** A string in which `sep` does not occur is a single field. */
  lemma FieldsWithoutSeparator(s: string, sep: char)
    requires sep !in s
    ensures FirstField(s, sep) == s && SecondField(s, sep) == None
  {
    OccursSingle(s, sep);
  }

  /** `(p + sep + x).split(sep)` begins with the fields `p` and `x` when neither
      contains `sep`. */
  lemma SplitJoined(p: string, sep: char, x: string)
    requires sep !in p && sep !in x
    ensures FirstField(p + [sep] + x, sep) == p
    ensures SecondField(p + [sep] + x, sep) == Some(x)
  {
    var s := p + [sep] + x;
    IndexOfAppended(p, [sep] + x);
    assert s == p + ([sep] + x);
    assert IndexOf(s, [sep]) == IndexOf(p + ([sep] + x), [sep]);
    IndexOfJoined(p, sep, x);
    assert s[|p| + 1..] == x;
    FieldsWithoutSeparator(x, sep);
  }

  /** `(p + sep + x + sep + rest).split(sep)` begins with the fields `p` and `x`
      when neither contains `sep`, whatever follows. */
  lemma SplitJoinedPrefix(p: string, sep: char, x: string, rest: string)
    requires sep !in p && sep !in x
    ensures FirstField(p + [sep] + x + [sep] + rest, sep) == p
    ensures SecondField(p + [sep] + x + [sep] + rest, sep) == Some(x)
  {
    var s := p + [sep] + x + [sep] + rest;
    assert s == p + [sep] + (x + [sep] + rest);
    IndexOfJoined(p, sep, x + [sep] + rest);
    assert s[..|p|] == p;
    assert s[|p| + 1..] == x + [sep] + rest;
    IndexOfJoined(x, sep, rest);
    assert (x + [sep] + rest)[..|x|] == x;
  }

  /** The first field of `p + sep + x` is `p` when `p` does not contain `sep`. */
  lemma FirstFieldJoined(p: string, sep: char, x: string)
    requires sep !in p
    ensures FirstField(p + [sep] + x, sep) == p
  {
    IndexOfJoined(p, sep, x);
    assert (p + [sep] + x)[..|p|] == p;
  }

  lemma IndexOfJoined(p: string, sep: char, x: string)
    requires sep !in p
    ensures IndexOf(p + [sep] + x, [sep]) == Some(|p|)
  {
    var s := p + [sep] + x;
    OccursSingle(s, sep);
    assert s[|p|] == sep;
  }
}
