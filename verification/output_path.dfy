/**
 * The command-line helper that names a tool's output file: strip the input
 * path's extension, if its file name has one, and append the new extension.
 */
module OutputPath {
  import opened Wrappers

  /** The characters find_last_of("\\/") looks for. */
  predicate IsSeparator(c: char)
  {
    c == '/' || c == '\\'
  }

  /** find_last_of('.'): the index of the last dot, or None for npos. */
  function LastDot(s: string): (r: Option<nat>)
    ensures r.Some? ==> r.value < |s| && s[r.value] == '.'
    ensures r.Some? ==> forall k :: r.value < k < |s| ==> s[k] != '.'
    ensures r.None? ==> forall k :: 0 <= k < |s| ==> s[k] != '.'
  {
    if |s| == 0 then None
    else if s[|s| - 1] == '.' then Some(|s| - 1)
    else LastDot(s[..|s| - 1])
  }

  /** find_last_of("\\/"): the index of the last separator, or None for npos. */
  function LastSeparator(s: string): (r: Option<nat>)
    ensures r.Some? ==> r.value < |s| && IsSeparator(s[r.value])
    ensures r.Some? ==> forall k :: r.value < k < |s| ==> !IsSeparator(s[k])
    ensures r.None? ==> forall k :: 0 <= k < |s| ==> !IsSeparator(s[k])
  {
    if |s| == 0 then None
    else if IsSeparator(s[|s| - 1]) then Some(|s| - 1)
    else LastSeparator(s[..|s| - 1])
  }

  /** The dot the helper cuts at: the last dot, when no separator follows it. */
  function CutAt(input: string): Option<nat>
  {
    var dot := LastDot(input);
    var sep := LastSeparator(input);
    if dot.Some? && (sep.None? || dot.value > sep.value) then dot else None
  }

  /** generateOutputPath: the path up to the cut dot (all of it when there is none), then the extension. */
  function GenerateOutputPath(input: string, extension: string): (r: string)
    ensures |r| >= |extension| && r[|r| - |extension|..] == extension
    ensures |r| <= |input| + |extension|
  {
    var cut := CutAt(input);
    var base := if cut.Some? then input[..cut.value] else input;
    base + extension
  }

  /** The file name has an extension: some dot with no separator after it. */
  ghost predicate HasExtension(input: string)
  {
    exists k :: 0 <= k < |input| && input[k] == '.' && NoSeparatorAfter(input, k)
  }

  /** No separator after index k. */
  ghost predicate NoSeparatorAfter(input: string, k: nat)
  {
    forall j :: k < j < |input| ==> !IsSeparator(input[j])
  }

  /** The helper cuts exactly when the file name has an extension, and then at a dot with no separator after it. */
  lemma CutWhenExtension(input: string)
    ensures CutAt(input).Some? <==> HasExtension(input)
    ensures CutAt(input).Some? ==> NoSeparatorAfter(input, CutAt(input).value)
  {
    var dot := LastDot(input);
    var sep := LastSeparator(input);
    if CutAt(input).Some? {
      assert NoSeparatorAfter(input, dot.value);
    }
    if HasExtension(input) {
      var k :| 0 <= k < |input| && input[k] == '.' && NoSeparatorAfter(input, k);
      assert dot.Some? && k <= dot.value;
      assert sep.Some? ==> sep.value < k;
    }
  }

  /**
   * What the output is made of: a prefix of the input and the extension.
   * The prefix is the whole input exactly when the file name has no
   * extension; otherwise it stops at a dot, and the part dropped holds no
   * other dot and no separator, so only the last extension goes.
   */
  lemma OutputPathParts(input: string, extension: string) returns (n: nat)
    ensures n <= |input|
    ensures GenerateOutputPath(input, extension) == input[..n] + extension
    ensures n == |input| <==> !HasExtension(input)
    ensures n < |input| ==> input[n] == '.'
    ensures forall j :: n < j < |input| ==> input[j] != '.' && !IsSeparator(input[j])
  {
    CutWhenExtension(input);
    var cut := CutAt(input);
    n := if cut.Some? then cut.value else |input|;
    assert input[..|input|] == input;
  }

  /**
   * With k the last dot and no separator after it, the output is the path
   * up to k and the extension; a name like ".profile" keeps nothing of itself.
   */
  lemma CutAtLastDot(input: string, extension: string, k: nat)
    requires k < |input| && input[k] == '.'
    requires forall j :: k < j < |input| ==> input[j] != '.' && !IsSeparator(input[j])
    ensures GenerateOutputPath(input, extension) == input[..k] + extension
  {
    assert HasExtension(input) by {
      assert NoSeparatorAfter(input, k);
    }
    var n := OutputPathParts(input, extension);
  }
}
