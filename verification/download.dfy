/** The name `handleDownloadProcessedImage` gives the downloaded PNG. */
module Download {

  const Suffix: string := "_transparent_white_bg.png"

  /** `String.prototype.lastIndexOf` for one character: the last index holding `c`,
      or -1 when there is none. */
  function LastIndexOf(s: string, c: char): (j: int)
    ensures -1 <= j < |s|
    ensures j == -1 ==> forall k :: 0 <= k < |s| ==> s[k] != c
    ensures j >= 0 ==> s[j] == c && forall k :: j < k < |s| ==> s[k] != c
    decreases |s|
  {
    if |s| == 0 then -1
    else if s[|s| - 1] == c then |s| - 1
    else LastIndexOf(s[..|s| - 1], c)
  }

  /** An index clamped into [0, len], as `substring` treats its arguments. */
  function Clamp(x: int, len: nat): (y: nat)
    ensures y <= len
    ensures 0 <= x <= len ==> y == x
  {
    if x < 0 then 0 else if x > len then len else x
  }

  /** `String.prototype.substring`: both ends clamped into the string, swapped when the
      start lies after the end. */
  function Substring(s: string, start: int, end: int): (r: string)
    ensures 0 <= start <= end <= |s| ==> r == s[start..end]
    ensures end < 0 ==> r == s[..Clamp(start, |s|)]
  {
    var a, b := Clamp(start, |s|), Clamp(end, |s|);
    if a <= b then s[a..b] else s[b..a]
  }

  /** The text before the last '.', or the whole name when that text is empty: the
      name has no '.', or its only '.' comes first. */
  function BaseName(name: string): (base: string)
    ensures base <= name
    ensures base == "" ==> name == ""
  {
    var stem := Substring(name, 0, LastIndexOf(name, '.'));
    if stem == "" then name else stem
  }

  /** The download name: a prefix of the original name, non-empty unless the name is,
      followed by the fixed suffix, so it always ends in ".png". */
  function DownloadName(name: string): (r: string)
    ensures |r| >= |Suffix| && r[|r| - |Suffix|..] == Suffix
    ensures r[..|r| - |Suffix|] <= name
    ensures |r| > |Suffix| || name == ""
  {
    var base := BaseName(name);
    assert (base + Suffix)[..|base|] == base;
    assert (base + Suffix)[|base|..] == Suffix;
    base + Suffix
  }

  /** A name whose last '.' comes after some text loses that '.' and what follows. */
  lemma DownloadNameStripsExtension(name: string, j: nat)
    requires 0 < j < |name| && name[j] == '.'
    requires forall k :: j < k < |name| ==> name[k] != '.'
    ensures DownloadName(name) == name[..j] + Suffix
  {
    assert LastIndexOf(name, '.') == j;
  }

  /** A name without a '.' is kept whole. */
  lemma DownloadNameWithoutDot(name: string)
    requires forall k :: 0 <= k < |name| ==> name[k] != '.'
    ensures DownloadName(name) == name + Suffix
  {
    assert LastIndexOf(name, '.') == -1;
  }

  /** A name whose only '.' is its first character, such as ".png", is kept whole. */
  lemma DownloadNameLeadingDot(name: string)
    requires |name| > 0 && name[0] == '.'
    requires forall k :: 0 < k < |name| ==> name[k] != '.'
    ensures DownloadName(name) == name + Suffix
  {
    assert LastIndexOf(name, '.') == 0;
  }
}
