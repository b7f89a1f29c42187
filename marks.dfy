/** The shared data model of the mark annotation engine. */
module Marks {

  datatype Option<T> = None | Some(value: T)

  /** A point annotation. `x` and `y` are percentages of the rendered image's
      width and height; `name` is an optional label, absent when unset. */
  datatype Mark = Mark(x: real, y: real, name: Option<string>)

  /** A saved marked-map record as the client receives it. The timestamps are
      not used by the core and are not modelled. */
  datatype MarkedMap = MarkedMap(id: string, mapId: string, mapName: string, imageUrl: string, marks: seq<Mark>)

  /** `s.filter((_, idx) => idx !== i)`: for an index in range, the sequence
      with exactly that element taken out and the others in their order; for
      any other index, `s` itself. */
  function WithoutIndex<T>(s: seq<T>, i: int): (r: seq<T>)
    ensures 0 <= i < |s| ==> |r| == |s| - 1
    ensures 0 <= i < |s| ==> forall k :: 0 <= k < i ==> r[k] == s[k]
    ensures 0 <= i < |s| ==> forall k :: i <= k < |r| ==> r[k] == s[k + 1]
    ensures 0 <= i < |s| ==> multiset(r) + multiset{s[i]} == multiset(s)
    ensures !(0 <= i < |s|) ==> r == s
  {
    if 0 <= i < |s| then
      assert s == s[..i] + [s[i]] + s[i + 1..];
      s[..i] + s[i + 1..]
    else
      s
  }

  /** Appending an element and then filtering out its index gives back the
      original sequence. */
  lemma WithoutAppended<T>(s: seq<T>, x: T)
    ensures WithoutIndex(s + [x], |s|) == s
  {
  }
}
