/** AS_PATH segments (`attr.rs`) and their RFC 4271 section 9.1.2.2 length. */
module AsPath {
  import opened Net

  datatype Segment =
    | Set(asns: seq<u32>)
    | Sequence(asns: seq<u32>)
    | ConfedSequence(asns: seq<u32>)
    | ConfedSet(asns: seq<u32>)
  {
    predicate IsConfederation() {
      ConfedSequence? || ConfedSet?
    }
  }

  /** Each AS of a sequence counts once, a set once, confederation segments not at all. */
  function SegmentLen(s: Segment): nat {
    match s
    case Sequence(a) => |a|
    case Set(_) => 1
    case _ => 0
  }

  function PathLen(p: seq<Segment>): nat {
    if p == [] then 0 else SegmentLen(p[0]) + PathLen(p[1..])
  }
}
