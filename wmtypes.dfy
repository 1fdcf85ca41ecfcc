/** Types shared by the zone model of core.c and the monitor-stack model of swm.c. */
module WmTypes {

  /** An X window handle (an XID): an opaque unsigned identifier. */
  type Window = nat

  /** One physical monitor as the Xinerama extension reports it (XineramaScreenInfo). */
  datatype ScreenInfo = ScreenInfo(screenNumber: int, xOrg: int, yOrg: int, width: int, height: int)

  /** A pointer position in root-window coordinates. */
  datatype Point = Point(x: int, y: int)

  /**
   * The selection invariant both data models keep for an ordered collection
   * of `len` windows and its current position: the position is -1 exactly
   * when the collection is empty, and otherwise a valid position in it.
   */
  predicate SelectionValid(len: int, current: int) {
    if len == 0 then current == -1 else 0 <= current < len
  }

  /** The position of the first occurrence of `w` in `xs`, or -1 when it does not occur. */
  function IndexOf(xs: seq<Window>, w: Window): (i: int)
    ensures -1 <= i < |xs|
    ensures i == -1 <==> w !in xs
    ensures 0 <= i ==> xs[i] == w && w !in xs[..i]
  {
    if xs == [] then -1
    else if xs[0] == w then 0
    else
      var j := IndexOf(xs[1..], w);
      if j == -1 then -1
      else
        assert xs[..j + 1] == [xs[0]] + xs[1..][..j];
        j + 1
  }

  /** Conversely, a position holding `w` with no earlier occurrence is the one `IndexOf` finds. */
  lemma IndexOfFirst(xs: seq<Window>, w: Window, i: int)
    requires 0 <= i < |xs| && xs[i] == w
    requires forall j :: 0 <= j < i ==> xs[j] != w
    ensures IndexOf(xs, w) == i
  {
  }

  /** The sequence with the entry at `pos` taken out and the later entries shifted left. */
  function RemoveAt(s: seq<Window>, pos: int): (r: seq<Window>)
    requires 0 <= pos < |s|
    ensures |r| == |s| - 1
    ensures forall i :: 0 <= i < |r| ==> r[i] == if i < pos then s[i] else s[i + 1]
  {
    s[..pos] + s[pos + 1..]
  }

  /** Taking out an entry removes exactly that window, once. */
  lemma RemoveAtContents(s: seq<Window>, pos: int)
    requires 0 <= pos < |s|
    ensures multiset(RemoveAt(s, pos)) == multiset(s) - multiset{s[pos]}
  {
    assert s == s[..pos] + [s[pos]] + s[pos + 1..];
  }
}
