/** The file name `save_page` derives from a URL's netloc and path:
    dots of the netloc and slashes of the path become underscores, the two are
    joined, an empty result falls back to "index", and the name is cut to 100
    characters (the `.html` suffix and the `pages/` directory are added around it). */
module Filename {

  const MaxLength: nat := 100
  const Fallback: string := "index"

  function Min(a: int, b: int): int {
    if a <= b then a else b
  }

  /** One character of `str.replace(from, to)` with single-character arguments. */
  function Swap(ch: char, from: char, to: char): char {
    if ch == from then to else ch
  }

  /** `s.replace(from, to)` for single characters. */
  function Replace(s: string, from: char, to: char): (r: string)
    ensures |r| == |s|
    ensures forall i :: 0 <= i < |s| ==> r[i] == Swap(s[i], from, to)
  {
    if s == [] then [] else [Swap(s[0], from, to)] + Replace(s[1..], from, to)
  }

  /** The stem of the file `save_page` writes for a URL with this netloc and path. */
  function FileStem(netloc: string, path: string): (r: string)
    ensures 0 < |r| <= MaxLength
    ensures netloc == [] && path == [] ==> r == Fallback
    ensures |netloc| + |path| > 0 ==> |r| == Min(MaxLength, |netloc| + |path|)
    // the netloc part: every character kept except '.', which became '_'
    ensures forall i :: 0 <= i < |r| && i < |netloc| ==> r[i] == Swap(netloc[i], '.', '_') && r[i] != '.'
    // the path part: every character kept except '/', which became '_'
    ensures forall i :: |netloc| <= i < |r| && i - |netloc| < |path| ==>
              r[i] == Swap(path[i - |netloc|], '/', '_') && r[i] != '/'
    ensures forall i :: |netloc| <= i < |r| ==> r[i] != '/'
  {
    var joined := Replace(netloc, '.', '_') + Replace(path, '/', '_');
    var name := if joined == [] then Fallback else joined;
    if |name| <= MaxLength then name else name[..MaxLength]
  }

  /** Two paths whose slashes and underscores sit in different places can share a file:
      `/a/b` and `/a_b` under one netloc are saved to the same name. */
  lemma SlashUnderscoreCollide(netloc: string, p: string, q: string)
    requires |p| == |q|
    requires forall i :: 0 <= i < |p| ==> p[i] == q[i] || (p[i] in "/_" && q[i] in "/_")
    ensures FileStem(netloc, p) == FileStem(netloc, q)
  {
    assert Replace(p, '/', '_') == Replace(q, '/', '_');
  }

  /** Once netloc and path fill the 100 characters, anything appended to the path
      is cut off: every longer path under that prefix is saved to the same file. */
  lemma LongPathsCollide(netloc: string, path: string, tail: string)
    requires |netloc| + |path| >= MaxLength
    ensures FileStem(netloc, path + tail) == FileStem(netloc, path)
  {
    var a := FileStem(netloc, path + tail);
    var b := FileStem(netloc, path);
    assert |a| == |b| == MaxLength;
    forall i | 0 <= i < MaxLength
      ensures a[i] == b[i]
    {
      if i >= |netloc| {
        assert (path + tail)[i - |netloc|] == path[i - |netloc|];
      }
    }
  }
}
