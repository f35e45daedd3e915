/** The Windows path operations the application relies on: `Path.Combine`,
    `Path.GetFileName` and `Path.GetExtension`, with `\` and `/` as
    directory separators and `X:` as a drive root. */
module Paths {

  predicate IsSeparator(c: char) {
    c == '\\' || c == '/'
  }

  predicate IsDriveLetter(c: char) {
    ('A' <= c <= 'Z') || ('a' <= c <= 'z')
  }

  /** A drive-relative root such as `C:`. */
  predicate HasDrive(p: string) {
    |p| >= 2 && IsDriveLetter(p[0]) && p[1] == ':'
  }

  /** `Path.IsPathRooted`: a leading separator or a drive. */
  predicate IsRooted(p: string) {
    (|p| >= 1 && IsSeparator(p[0])) || HasDrive(p)
  }

  predicate NoSeparator(s: string) {
    forall i :: 0 <= i < |s| ==> !IsSeparator(s[i])
  }

  /** `Path.Combine(first, second)`: a rooted or empty part wins;
      otherwise the parts are joined with a `\` unless one already sits at
      the joint. */
  function Combine(first: string, second: string): (p: string)
    ensures second == [] ==> p == first
    ensures second != [] && (first == [] || IsRooted(second)) ==> p == second
    ensures second != [] && first != [] && !IsRooted(second) ==>
      && |p| >= |first| + |second|
      && p[..|first|] == first
      && p[|p| - |second|..] == second
      && (IsSeparator(first[|first| - 1]) ==> p == first + second)
  {
    if second == [] then first
    else if first == [] then second
    else if IsRooted(second) then second
    else if IsSeparator(first[|first| - 1]) then first + second
    else first + "\\" + second
  }

  /** The length of the root `GetFileName` never returns from. */
  function RootLength(p: string): nat {
    if HasDrive(p) then 2 else 0
  }

  /** The index just past the last separator (or the drive root). */
  function NameStart(p: string, i: nat): (k: nat)
    requires i <= |p|
    ensures k <= i
    ensures forall j :: k <= j < i ==> !IsSeparator(p[j])
    ensures k == 0 || IsSeparator(p[k - 1]) || k <= RootLength(p)
    decreases i
  {
    if i == 0 then 0
    else if i <= RootLength(p) || IsSeparator(p[i - 1]) then i
    else NameStart(p, i - 1)
  }

  /** `Path.GetFileName`: what follows the last separator. */
  function GetFileName(p: string): (r: string)
    ensures |r| <= |p| && r == p[|p| - |r|..]
    ensures NoSeparator(r)
  {
    p[NameStart(p, |p|)..]
  }

  /** The file name of a combined path is the name that was combined in. */
  lemma {:induction false} GetFileNameCombine(folder: string, name: string)
    requires name != [] && NoSeparator(name) && !HasDrive(name)
    ensures GetFileName(Combine(folder, name)) == name
  {
    var p := Combine(folder, name);
    assert !IsRooted(name);
    NameStartSuffix(p, name);
  }

  lemma {:induction false} NameStartSuffix(p: string, name: string)
    requires |name| <= |p| && p[|p| - |name|..] == name && NoSeparator(name)
    requires |p| == |name| || IsSeparator(p[|p| - |name| - 1])
    requires |p| == |name| ==> !HasDrive(p)
    ensures NameStart(p, |p|) == |p| - |name|
  {
    NameStartFrom(p, |p| - |name|, |p|);
  }

  lemma {:induction false} NameStartFrom(p: string, k: nat, i: nat)
    requires k <= i <= |p|
    requires forall j :: k <= j < |p| ==> !IsSeparator(p[j])
    requires k == 0 || IsSeparator(p[k - 1])
    requires RootLength(p) < i || i == k
    requires k == 0 ==> RootLength(p) == 0
    ensures NameStart(p, i) == k
    decreases i
  {
    if i > k {
      assert !IsSeparator(p[i - 1]);
      NameStartFrom(p, k, i - 1);
    }
  }

  /** `Path.GetExtension`: from the last `.` of the file name to the end;
      empty when there is no `.` or it is the last character. */
  function GetExtension(p: string): (r: string)
    ensures |r| <= |p| && r == p[|p| - |r|..]
    ensures r == [] || (|r| >= 2 && r[0] == '.' && NoSeparator(r) && '.' !in r[1..])
  {
    ExtensionFrom(p, |p|)
  }

  function ExtensionFrom(p: string, i: nat): (r: string)
    requires i <= |p|
    requires forall j :: i <= j < |p| ==> !IsSeparator(p[j]) && p[j] != '.'
    ensures |r| <= |p| && r == p[|p| - |r|..]
    ensures r == [] || (|r| >= 2 && r[0] == '.' && NoSeparator(r) && '.' !in r[1..])
    decreases i
  {
    if i == 0 then []
    else if p[i - 1] == '.' then
      if i == |p| then [] else p[i - 1..]
    else if IsSeparator(p[i - 1]) then []
    else ExtensionFrom(p, i - 1)
  }

  /** A path combined with a non-empty name ends with that name. */
  lemma CombineEndsWith(folder: string, name: string)
    requires name != []
    ensures |Combine(folder, name)| >= |name| && Combine(folder, name)[|Combine(folder, name)| - |name|..] == name
  {
  }

  /** The last `n` characters of a sequence's suffix are its own last `n`. */
  lemma SuffixOfSuffix(p: string, s: string, n: nat)
    requires |p| >= |s| >= n && p[|p| - |s|..] == s
    ensures p[|p| - n..] == s[|s| - n..]
  {
    assert p[|p| - n..] == p[|p| - |s|..][|s| - n..];
  }

  /** Text `GetExtension` can return: a `.` followed by at least one
      character that is neither a separator nor a `.`. */
  predicate IsExtensionText(ext: string) {
    |ext| >= 2 && ext[0] == '.' && NoSeparator(ext) && '.' !in ext[1..]
  }

  /** Appending an extension to a name without one gives that extension
      back. */
  lemma {:induction false} GetExtensionAppend(name: string, ext: string)
    requires IsExtensionText(ext)
    ensures GetExtension(name + ext) == ext
  {
    var p := name + ext;
    GetExtensionSuffix(p, ext);
  }

  /** A path that ends in an extension has that extension. */
  lemma {:induction false} GetExtensionSuffix(p: string, ext: string)
    requires IsExtensionText(ext) && |ext| <= |p| && p[|p| - |ext|..] == ext
    ensures GetExtension(p) == ext
  {
    var n := |ext|;
    forall j | |p| - n < j < |p| ensures !IsSeparator(p[j]) && p[j] != '.' {
      assert p[j] == ext[j - (|p| - n)];
      assert p[j] == ext[1..][j - (|p| - n) - 1];
    }
    assert p[|p| - n] == ext[0];
    ExtensionFromSuffix(p, n, |p|);
  }

  lemma {:induction false} ExtensionFromSuffix(p: string, n: nat, i: nat)
    requires 2 <= n <= |p| && |p| - n < i <= |p|
    requires p[|p| - n] == '.'
    requires forall j :: |p| - n < j < |p| ==> !IsSeparator(p[j]) && p[j] != '.'
    ensures ExtensionFrom(p, i) == p[|p| - n..]
    decreases i
  {
    if i - 1 > |p| - n {
      assert !IsSeparator(p[i - 1]) && p[i - 1] != '.';
      ExtensionFromSuffix(p, n, i - 1);
    } else {
      assert i - 1 == |p| - n && i < |p|;
    }
  }
}
