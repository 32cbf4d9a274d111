/** The two path helpers whose behaviour the selector and the solution
    filter depend on: run.js's `norm` and Node's `path.extname`. */
module Paths {
  import opened Strings

  /** run.js `norm`: split on the platform separator `sep` and join with `/`. */
  function Norm(path: string, sep: char): (r: string)
  {
    Join(Split(path, sep), '/')
  }

  /** `norm` replaces every platform separator by `/` and changes nothing else. */
  lemma NormReplacesSeparator(path: string, sep: char)
    ensures |Norm(path, sep)| == |path|
    ensures forall i :: 0 <= i < |path| ==>
      Norm(path, sep)[i] == if path[i] == sep then '/' else path[i]
  {
    JoinSplit(path, sep, '/');
  }

  /** On a platform whose separator already is `/`, `norm` is the identity. */
  lemma NormIdentity(path: string)
    ensures Norm(path, '/') == path
  {
    NormReplacesSeparator(path, '/');
  }

  /** Index of the last `c` in `s`, or -1 when there is none. */
  function LastIndexOf(s: string, c: char): (k: int)
    ensures -1 <= k < |s|
    ensures k >= 0 ==> s[k] == c
    ensures forall j :: k < j < |s| ==> s[j] != c
    decreases |s|
  {
    if s == [] then -1
    else if s[|s| - 1] == c then |s| - 1
    else LastIndexOf(s[..|s| - 1], c)
  }

  /** Node's `path.extname` of a directory entry (a name without separators):
      from the last `.` to the end, except that a `.` in first position does
      not start an extension and `..` has none. */
  function Extname(name: string): (e: string)
    ensures e == "" || (e[0] == '.' && '.' !in e[1..] && |e| < |name| && EndsWith(name, e))
  {
    var k := LastIndexOf(name, '.');
    if k <= 0 || name == ".." then "" else name[k..]
  }

  /** For an extension `e` such as ".js" (one leading dot, at least one more
      character, no other dot), `Extname(name) == e` exactly when `name` ends
      in `e` and has at least one character before it. */
  lemma ExtnameIs(name: string, e: string)
    requires |e| >= 2 && e[0] == '.' && '.' !in e[1..]
    ensures Extname(name) == e <==> |name| > |e| && EndsWith(name, e)
  {
    var k := LastIndexOf(name, '.');
    if |name| > |e| && EndsWith(name, e) {
      var p := |name| - |e|;
      assert name[p] == e[0];
      forall j | p < j < |name| ensures name[j] != '.' {
        assert name[j] == e[j - p] == e[1..][j - p - 1];
      }
      assert k == p;
    }
    if Extname(name) == e {
      assert k > 0 && name[k..] == e;
    }
  }
}
