/**
 * The GET /download handler of DownloadServlet as a classifier: which of its
 * five responses a request gets, and which file a served request reads. The
 * servlet context's real path of "generated_pdfs" is the parameter `outputDir`
 * (a list of path components), and the files present there are the set
 * `existing` of full paths.
 */
module DownloadServlet {
  import opened Wrappers
  import opened JavaString

  /** The responses of doGet: "File parameter is missing" and "Invalid file name"
      (both bad requests), an uncaught InvalidPathException from `Paths.get` (a
      server error), "File not found", and streaming the file at `path`. */
  datatype DownloadOutcome = MissingParameter | InvalidName | InvalidPath | NotFound | Stream(path: seq<string>)

  /** Path separators: '/' (every platform) and '\' (Windows). */
  predicate IsSeparator(c: char) {
    c == '/' || c == '\\'
  }

  /** The directory-traversal test: "..", "/" or "\" anywhere in the name. */
  predicate Traverses(name: string) {
    Contains(name, "..") || Contains(name, "/") || Contains(name, "\\")
  }

  /** A name the path layer cannot represent. On Unix that is a name holding the
      NUL character, which `Paths.get` refuses with InvalidPathException. */
  predicate RejectedByPathLayer(name: string) {
    '\0' in name
  }

  /** The end of the path component that starts at `i`. */
  function ComponentEnd(s: string, i: nat): (k: nat)
    requires i <= |s|
    ensures i <= k <= |s|
    ensures k < |s| ==> IsSeparator(s[k])
    ensures forall j :: i <= j < k ==> !IsSeparator(s[j])
    decreases |s| - i
  {
    if i == |s| || IsSeparator(s[i]) then i else ComponentEnd(s, i + 1)
  }

  /** The components `Paths.get` sees in a string: the runs between separators,
      empty runs dropped. It splits at both '/' and '\', as the Windows path layer
      does; on Unix '\' is an ordinary character. `Download` never meets the
      difference, because it refuses every name holding '/' or '\' first. */
  function SplitPath(s: string): (r: seq<string>)
    ensures forall k :: 0 <= k < |r| ==> r[k] != "" && forall j :: 0 <= j < |r[k]| ==> !IsSeparator(r[k][j])
    decreases |s|
  {
    if |s| == 0 then []
    else if IsSeparator(s[0]) then SplitPath(s[1..])
    else
      var k := ComponentEnd(s, 0);
      [s[..k]] + SplitPath(s[k..])
  }

  /** `Paths.get(dir, name)`. */
  function Resolve(dir: seq<string>, name: string): seq<string> {
    dir + SplitPath(name)
  }

  /** The end of a component inside `a` does not depend on what follows `a`;
      one that reaches the end of `a` stops at a separator placed after it. */
  lemma {:induction false} ComponentEndAppend(a: string, t: string, i: nat)
    requires i <= |a|
    ensures ComponentEnd(a, i) < |a| ==> ComponentEnd(a + t, i) == ComponentEnd(a, i)
    ensures ComponentEnd(a, i) == |a| && t != [] && IsSeparator(t[0]) ==> ComponentEnd(a + t, i) == |a|
    decreases |a| - i
  {
    if i < |a| && !IsSeparator(a[i]) {
      assert (a + t)[i] == a[i];
      ComponentEndAppend(a, t, i + 1);
    } else if i == |a| && t != [] {
      assert (a + t)[i] == t[0];
    } else if i < |a| {
      assert (a + t)[i] == a[i];
    }
  }

  /** A separator splits the path: the components of `a`, then those of `b`.
      With `SplitPath([]) == []` and `OneComponent`, this pins SplitPath down on
      every string: its result is the separator-free runs of `s`, in order. */
  lemma {:induction false} SplitAtSeparator(a: string, c: char, b: string)
    requires IsSeparator(c)
    ensures SplitPath(a + [c] + b) == SplitPath(a) + SplitPath(b)
    decreases |a|
  {
    var s := a + [c] + b;
    if |a| == 0 {
      assert s == [c] + b && s[1..] == b;
    } else if IsSeparator(a[0]) {
      assert s[0] == a[0] && s[1..] == a[1..] + [c] + b;
      SplitAtSeparator(a[1..], c, b);
    } else {
      var k := ComponentEnd(a, 0);
      ComponentEndAppend(a, [c] + b, 0);
      assert s == a + ([c] + b);
      assert s[0] == a[0];
      if k < |a| {
        assert s[..k] == a[..k];
        assert s[k..] == a[k..] + [c] + b;
        SplitAtSeparator(a[k..], c, b);
      } else {
        assert s[..k] == a && a[..k] == a;
        assert s[k..] == [c] + b && ([c] + b)[1..] == b;
        assert a[k..] == [];
      }
    }
  }

  /** A non-empty name without separators is a single path component. */
  lemma OneComponent(name: string)
    requires name != "" && forall j :: 0 <= j < |name| ==> !IsSeparator(name[j])
    ensures SplitPath(name) == [name]
  {
    var k := ComponentEnd(name, 0);
    assert k == |name|;
    assert name[..k] == name;
    assert name[k..] == "";
    assert SplitPath(name) == [name[..k]] + SplitPath(name[k..]);
  }

  /** A name that passes the traversal test has no separator in it. */
  lemma AcceptedHasNoSeparator(name: string)
    requires !Traverses(name)
    ensures forall j :: 0 <= j < |name| ==> !IsSeparator(name[j])
  {
    ContainsChar(name, '/');
    ContainsChar(name, '\\');
  }

  /** doGet: the checks in the order the handler makes them. */
  function Download(file: Option<string>, outputDir: seq<string>, existing: set<seq<string>>): (r: DownloadOutcome)
    ensures r == MissingParameter <==> file.None? || file.value == ""
    ensures r == InvalidName <==> file.Some? && file.value != "" && Traverses(file.value)
    ensures r == InvalidPath <==>
      file.Some? && file.value != "" && !Traverses(file.value) && RejectedByPathLayer(file.value)
    ensures r.Stream? ==>
      && r.path == outputDir + [file.value] && r.path in existing
      && !Contains(file.value, "..") && !RejectedByPathLayer(file.value)
      && forall j :: 0 <= j < |file.value| ==> !IsSeparator(file.value[j])
    ensures r.NotFound? <==>
      && file.Some? && file.value != "" && !Traverses(file.value) && !RejectedByPathLayer(file.value)
      && outputDir + [file.value] !in existing
  {
    if file.None? || file.value == "" then MissingParameter
    else if Traverses(file.value) then InvalidName
    else if RejectedByPathLayer(file.value) then InvalidPath
    else
      AcceptedHasNoSeparator(file.value);
      OneComponent(file.value);
      var path := Resolve(outputDir, file.value);
      if path !in existing then NotFound else Stream(path)
  }

  /** The names the converter generates, a UUID followed by ".pdf", pass the
      traversal test: such a request is served exactly when the file is there. */
  lemma GeneratedNameAccepted(token: string, outputDir: seq<string>, existing: set<seq<string>>)
    requires IsUuidText(token)
    ensures var name := token + ".pdf";
      Download(Some(name), outputDir, existing)
        == if outputDir + [name] in existing then Stream(outputDir + [name]) else NotFound
  {
    var name := token + ".pdf";
    assert forall i :: 0 <= i < |token| ==> name[i] == token[i];
    assert name[|token|..] == ".pdf";
    ContainsDotDot(name);
    ContainsChar(name, '/');
    ContainsChar(name, '\\');
    assert !Traverses(name);
    assert !RejectedByPathLayer(name);
  }
}
