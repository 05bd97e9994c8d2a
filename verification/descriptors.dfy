/** Descriptor lookup (getfd) and the shell-name test of update_bytes, both
    read from the calling process's context. */
module Descriptors {
  import opened FileTypes

  /** getfd gives up once its index passes this bound. */
  const ScanBound: nat := 255

  /** Index `j` is examined by getfd's scan: it lies within the array and the
      bound, and no entry up to and including `j` is null. Entries past the
      end of the sequence read as null. */
  ghost predicate Scanned(ofile: seq<Option<nat>>, j: int)
  {
    0 <= j < |ofile| && j <= ScanBound + 1 &&
    forall k :: 0 <= k <= j ==> ofile[k].Some?
  }

  /** getfd: the index of slot `s` in the descriptor array, or -1. */
  function GetFd(ofile: seq<Option<nat>>, s: nat): (r: int)
    ensures r >= -1
    ensures r >= 0 ==> Scanned(ofile, r) && ofile[r] == Some(s)
    ensures r >= 0 ==> forall k :: 0 <= k < r ==> ofile[k] != Some(s)
    ensures r == -1 <==> forall j :: Scanned(ofile, j) ==> ofile[j] != Some(s)
  {
    GetFdFrom(ofile, s, 0)
  }

  /** The scan of getfd from index `i`, given that entries before `i` are
      neither null nor `s`. */
  function GetFdFrom(ofile: seq<Option<nat>>, s: nat, i: nat): (r: int)
    requires i <= |ofile| && i <= ScanBound + 1
    requires forall k :: 0 <= k < i ==> ofile[k].Some? && ofile[k] != Some(s)
    ensures r >= -1
    ensures r >= 0 ==> i <= r && Scanned(ofile, r) && ofile[r] == Some(s)
    ensures r >= 0 ==> forall k :: 0 <= k < r ==> ofile[k] != Some(s)
    ensures r == -1 <==> forall j :: Scanned(ofile, j) ==> ofile[j] != Some(s)
    decreases |ofile| - i
  {
    if i >= |ofile| || ofile[i].None? then -1
    else if ofile[i] == Some(s) then i
    else if i > ScanBound then -1
    else GetFdFrom(ofile, s, i + 1)
  }

  /** A character of a C string; reading past the end yields the terminator. */
  function CharAt(s: string, i: nat): char
  {
    if i < |s| then s[i] else '\0'
  }

  /** strncmp(a, b, n) == 0, comparing from position `i`: the strings agree on
      every position before the first terminator or before `n`. */
  predicate StrnEqFrom(a: string, b: string, n: nat, i: nat)
    decreases n - i
  {
    i >= n ||
    (CharAt(a, i) == CharAt(b, i) && (CharAt(a, i) == '\0' || StrnEqFrom(a, b, n, i + 1)))
  }

  /** update_bytes's test `!strncmp(p->name, "sh", 16)`. */
  predicate IsShell(name: string)
  {
    StrnEqFrom(name, "sh", 16, 0)
  }

  /** For a name without an embedded terminator the shell test is exact
      string equality with "sh": "sh" is shorter than the 16-character limit,
      so a longer or shorter name never matches. */
  lemma ShellNameExact(name: string)
    requires forall k :: 0 <= k < |name| ==> name[k] != '\0'
    ensures IsShell(name) <==> name == "sh"
  {
    if IsShell(name) {
      assert CharAt(name, 0) == 's';
      assert StrnEqFrom(name, "sh", 16, 1);
      assert CharAt(name, 1) == 'h';
      assert StrnEqFrom(name, "sh", 16, 2);
      assert CharAt(name, 2) == '\0';
      assert |name| == 2;
    }
    if name == "sh" {
      assert StrnEqFrom(name, "sh", 16, 2);
      assert StrnEqFrom(name, "sh", 16, 1);
    }
  }
}
