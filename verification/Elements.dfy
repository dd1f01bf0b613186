/** The structure that carries the links of the intrusive containers: `next` and `prev` for
    the lists of `utlist.h` and the application order of `uthash.h`, `hhNext` and `hhPrev`
    for the bucket chains. The key is constant while the element is in a container. */
module Elements {

  class Elem {
    const key: string
    var hashv: nat
    var next: Elem?
    var prev: Elem?
    var hhNext: Elem?
    var hhPrev: Elem?

    constructor (key: string)
      ensures this.key == key
    {
      this.key := key;
      hashv := 0;
      next, prev, hhNext, hhPrev := null, null, null, null;
    }
  }

  ghost predicate Distinct(s: seq<Elem>) {
    forall i, j :: 0 <= i < j < |s| ==> s[i] != s[j]
  }

  /** Each element's `next` is its successor in `s`, and the last one's is `end`. */
  ghost predicate NextLinks(s: seq<Elem>, end: Elem?)
    reads s`next
  {
    && (s != [] ==> s[|s| - 1].next == end)
    && forall k :: 0 <= k < |s| - 1 ==> s[k].next == s[k + 1]
  }

  /** Each element's `prev` is its predecessor in `s`, and the first one's is `start`. */
  ghost predicate PrevLinks(s: seq<Elem>, start: Elem?)
    reads s`prev
  {
    && (s != [] ==> s[0].prev == start)
    && forall k :: 0 < k < |s| ==> s[k].prev == s[k - 1]
  }

  ghost function First(s: seq<Elem>): Elem? {
    if s == [] then null else s[0]
  }

  ghost function Last(s: seq<Elem>): Elem? {
    if s == [] then null else s[|s| - 1]
  }
}
