/** Oriented vertex ids of the overlap graph: a sequence name followed by one
    sign character, `+` for the sequence as given and `-` for its reverse
    complement. */
module VertexIds {

  /** `name + "+"`. */
  function Forward(name: string): (vid: string)
    ensures |vid| == |name| + 1 && vid[..|name|] == name && vid[|name|] == '+'
  {
    name + "+"
  }

  /** `name + "-"`. */
  function Reverse(name: string): (vid: string)
    ensures |vid| == |name| + 1 && vid[..|name|] == name && vid[|name|] == '-'
  {
    name + "-"
  }

  /** `getVertexName`: the id without its sign. */
  function VertexName(vid: string): (name: string)
    requires |vid| > 0
    ensures |name| == |vid| - 1 && name == vid[..|vid| - 1]
  {
    vid[..|vid| - 1]
  }

  /** `geVertexSign`: the last character. */
  function VertexSign(vid: string): char
    requires |vid| > 0
  {
    vid[|vid| - 1]
  }

  /** `isVertexSignReverseComplement`. */
  predicate IsReverseSign(vid: string)
    requires |vid| > 0
  {
    VertexSign(vid) == '-'
  }

  /** `getReverseComplementSign`: swaps `+` and `-`; any other character
      becomes `0`. */
  function ReverseComplementSign(sign: char): (r: char)
    ensures sign == '+' ==> r == '-'
    ensures sign == '-' ==> r == '+'
    ensures sign != '+' && sign != '-' ==> r == '0'
  {
    match sign
    case '+' => '-'
    case '-' => '+'
    case _ => '0'
  }

  /** `getReverseComplementID`: the same name with the other sign, so an id
      signed `+` or `-` gets a different id of the same kind. */
  function ReverseComplementId(vid: string): (r: string)
    requires |vid| > 0
    ensures |r| == |vid|
    ensures IsVertexId(vid) ==> IsVertexId(r) && r != vid
  {
    VertexName(vid) + [ReverseComplementSign(VertexSign(vid))]
  }

  predicate IsVertexId(vid: string) {
    |vid| > 0 && (vid[|vid| - 1] == '+' || vid[|vid| - 1] == '-')
  }

  /** The reverse-complement id keeps the name and the length, and changes
      only the sign: `+` and `-` swap, any other sign becomes `0`. */
  lemma ReverseComplementIdShape(vid: string)
    requires |vid| > 0
    ensures var r := ReverseComplementId(vid);
      |r| == |vid| && VertexName(r) == VertexName(vid) &&
      (VertexSign(vid) == '+' ==> VertexSign(r) == '-') &&
      (VertexSign(vid) == '-' ==> VertexSign(r) == '+') &&
      (VertexSign(vid) != '+' && VertexSign(vid) != '-' ==> VertexSign(r) == '0')
  {
    var r := ReverseComplementId(vid);
    assert r[..|r| - 1] == vid[..|vid| - 1];
  }

  /** Taking the reverse complement twice gives back an id that ends in `+`
      or `-`, and the result is again such an id. */
  lemma ReverseComplementIdInvolution(vid: string)
    requires IsVertexId(vid)
    ensures IsVertexId(ReverseComplementId(vid))
    ensures ReverseComplementId(ReverseComplementId(vid)) == vid
  {
    ReverseComplementIdShape(vid);
    var r := ReverseComplementId(vid);
    ReverseComplementIdShape(r);
    assert vid == VertexName(vid) + [VertexSign(vid)];
  }

  /** The two orientations of a name are each other's reverse complement and
      share the name. */
  lemma OrientationsPair(name: string)
    ensures ReverseComplementId(Forward(name)) == Reverse(name)
    ensures ReverseComplementId(Reverse(name)) == Forward(name)
    ensures VertexName(Forward(name)) == name && VertexName(Reverse(name)) == name
    ensures !IsReverseSign(Forward(name)) && IsReverseSign(Reverse(name))
  {
    assert Forward(name)[..|name|] == name;
    assert Reverse(name)[..|name|] == name;
  }

  /** An id is `Forward` or `Reverse` of its name. */
  lemma IdOfName(vid: string)
    requires IsVertexId(vid)
    ensures vid == if IsReverseSign(vid) then Reverse(VertexName(vid)) else Forward(VertexName(vid))
  {
    assert vid == VertexName(vid) + [VertexSign(vid)];
  }

  /** Different names give different forward ids. */
  lemma ForwardInjective(a: string, b: string)
    requires Forward(a) == Forward(b)
    ensures a == b
  {
    assert VertexName(Forward(a)) == a && VertexName(Forward(b)) == b;
  }
}
