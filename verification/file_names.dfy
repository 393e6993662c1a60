/**
 * The string surgery that the demo applies to file names: the position of the
 * last '.', the extension after it, the base name before it, and the
 * lower-casing of the extension.
 */
module FileNames {
  import opened Outcomes

  const Dot: char := '.'

  /** `s.find_last_of(c)` for a single character; `None` stands for npos. */
  function FindLastOf(s: string, c: char): (r: Option<nat>)
    ensures r.None? <==> forall k :: 0 <= k < |s| ==> s[k] != c
    ensures r.Some? ==> r.value < |s| && s[r.value] == c
    ensures r.Some? ==> forall k :: r.value < k < |s| ==> s[k] != c
  {
    if |s| == 0 then None
    else if s[|s| - 1] == c then Some(|s| - 1)
    else FindLastOf(s[..|s| - 1], c)
  }

  /**
   * `s.substr(0, n)`: the count is clamped to the length of `s`, and npos
   * (`None`) keeps the whole string.
   */
  function CutAt(s: string, n: Option<nat>): (r: string)
    ensures |r| <= |s| && r == s[..|r|]
    ensures n.None? ==> r == s
    ensures n.Some? ==> |r| == if n.value <= |s| then n.value else |s|
  {
    match n
    case None => s
    case Some(c) => if c <= |s| then s[..c] else s
  }

  /**
   * `name.substr(name.find_last_of(".") + 1)`. Without a dot the position is
   * npos, and npos + 1 wraps to 0 in `size_t`, so the whole name is taken.
   */
  function Extension(name: string): (ext: string)
    ensures |ext| <= |name| && ext == name[|name| - |ext|..]
    ensures forall k :: 0 <= k < |ext| ==> ext[k] != Dot
    ensures |ext| < |name| ==> name[|name| - |ext| - 1] == Dot
  {
    var start := match FindLastOf(name, Dot) case None => 0 case Some(p) => p + 1;
    name[start..]
  }

  /** `name.substr(0, name.find_last_of("."))`: the prefix before the last dot. */
  function BaseName(name: string): (base: string)
    ensures |base| <= |name| && base == name[..|base|]
    ensures |base| == |name| <==> forall k :: 0 <= k < |name| ==> name[k] != Dot
    ensures |base| < |name| ==> name[|base|] == Dot
    ensures forall k :: |base| < k < |name| ==> name[k] != Dot
  {
    CutAt(name, FindLastOf(name, Dot))
  }

  /** A name with a dot splits into base name, dot and extension; one without is both. */
  lemma SplitAtLastDot(name: string)
    ensures Dot in name ==> name == BaseName(name) + [Dot] + Extension(name)
    ensures Dot !in name ==> BaseName(name) == name && Extension(name) == name
  {
    var base, ext := BaseName(name), Extension(name);
    if Dot in name {
      assert name[..|base|] + [Dot] + name[|base| + 1..] == name;
    }
  }

  /** The base name of `b.e` is `b` when `e` holds no dot. */
  lemma BaseNameOfJoin(b: string, e: string)
    requires Dot !in e
    ensures BaseName(b + [Dot] + e) == b
    ensures Extension(b + [Dot] + e) == e
  {
    var name := b + [Dot] + e;
    assert name[|b|] == Dot;
    assert forall k :: |b| < k < |name| ==> name[k] == e[k - |b| - 1];
    SplitAtLastDot(name);
  }

  /** `std::tolower` in the default "C" locale: only 'A'..'Z' change. */
  function ToLowerChar(c: char): char
  {
    if 'A' <= c <= 'Z' then (c as int + 32) as char else c
  }

  /** The character-by-character lower-casing loop over an extension. */
  function ToLower(s: string): (r: string)
    ensures |r| == |s|
    ensures forall k :: 0 <= k < |s| ==> r[k] == ToLowerChar(s[k])
  {
    if |s| == 0 then [] else ToLower(s[..|s| - 1]) + [ToLowerChar(s[|s| - 1])]
  }

  /** The extension as the enumerators compare it. */
  function LowerExtension(name: string): string
  {
    ToLower(Extension(name))
  }
}
