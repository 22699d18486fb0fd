/** `Path.GetExtension`, the key the bundler sorts by when asked to group
    files by type of code. */
module Paths {

  /** Characters that end a directory name in a path. */
  predicate IsSeparator(c: char)
  {
    c == '/' || c == '\\'
  }

  /** Neither a dot nor a directory separator anywhere in `u`. */
  predicate Plain(u: string)
  {
    forall i :: 0 <= i < |u| ==> u[i] != '.' && !IsSeparator(u[i])
  }

  /** Scanning `path` backwards from index `i`: the extension, or "" when
      the scan reaches a separator or the start of the path first, or when
      the dot found is the path's last character. */
  function ExtensionFrom(path: string, i: nat): string
    requires i <= |path|
    decreases i
  {
    if i == 0 then ""
    else if path[i - 1] == '.' then (if i == |path| then "" else path[i - 1..])
    else if IsSeparator(path[i - 1]) then ""
    else ExtensionFrom(path, i - 1)
  }

  /** `Path.GetExtension(path)`: the suffix that starts at the last dot of
      the last path segment, dot included; "" when that segment has no dot
      or ends with it. */
  function Extension(path: string): string
  {
    ExtensionFrom(path, |path|)
  }

  lemma DotLastBlocks(path: string)
    requires |path| > 0 && path[|path| - 1] == '.'
    ensures forall k :: 0 <= k < |path| - 1 && path[k] == '.' ==> !Plain(path[k + 1..])
  {
    forall k | 0 <= k < |path| - 1 && path[k] == '.' ensures !Plain(path[k + 1..]) {
      assert path[k + 1..][|path| - 2 - k] == '.';
    }
  }

  lemma SeparatorBlocks(path: string, j: nat)
    requires j < |path| && IsSeparator(path[j]) && Plain(path[j + 1..])
    ensures forall k :: 0 <= k < |path| - 1 && path[k] == '.' ==> !Plain(path[k + 1..])
  {
    forall k | 0 <= k < |path| - 1 && path[k] == '.' ensures !Plain(path[k + 1..]) {
      if k < j {
        assert path[k + 1..][j - k - 1] == path[j];
      }
    }
  }

  lemma PlainExtend(path: string, i: nat)
    requires 0 < i <= |path| && Plain(path[i..])
    requires path[i - 1] != '.' && !IsSeparator(path[i - 1])
    ensures Plain(path[i - 1..])
  {
    assert path[i - 1..] == [path[i - 1]] + path[i..];
  }

  /** What the backward scan finds, once everything from `i` on is plain. */
  lemma {:induction false} ExtensionFromSpec(path: string, i: nat)
    requires i <= |path| && Plain(path[i..])
    ensures var e := ExtensionFrom(path, i);
            && (e != "" ==> 2 <= |e| <= |path| && e[0] == '.' && Plain(e[1..]) && e == path[|path| - |e|..])
            && (e == "" <==> forall k :: 0 <= k < |path| - 1 && path[k] == '.' ==> !Plain(path[k + 1..]))
    decreases i
  {
    if i == 0 {
      assert path[0..] == path;
    } else if path[i - 1] == '.' {
      if i == |path| {
        DotLastBlocks(path);
      } else {
        assert path[i - 1..][1..] == path[i..];
      }
    } else if IsSeparator(path[i - 1]) {
      SeparatorBlocks(path, i - 1);
    } else {
      PlainExtend(path, i);
      ExtensionFromSpec(path, i - 1);
    }
  }

  /** The extension is "." followed by a non-empty tail holding no dot and no
      separator, and it ends the path; it is "" exactly when no dot of the
      path is followed by such a tail. */
  lemma ExtensionSpec(path: string)
    ensures var e := Extension(path);
            && (e != "" ==> 2 <= |e| <= |path| && e[0] == '.' && Plain(e[1..]) && e == path[|path| - |e|..])
            && (e == "" <==> forall k :: 0 <= k < |path| - 1 && path[k] == '.' ==> !Plain(path[k + 1..]))
  {
    assert path[|path|..] == [];
    ExtensionFromSpec(path, |path|);
  }

  /** The extension is the one suffix that fits: any dot followed by a
      non-empty plain tail marks where it starts. */
  lemma ExtensionAt(path: string, k: nat)
    requires k < |path| - 1 && path[k] == '.' && Plain(path[k + 1..])
    ensures Extension(path) == path[k..]
  {
    ExtensionSpec(path);
  }
}
