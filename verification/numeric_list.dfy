/**
 * numeric_list: `[int(p) for p in s.split()]`, the integers of a whitespace-separated
 * list. A word that `int` refuses makes the whole call raise ValueError, modelled as None.
 */
module NumericList {
  import opened Wrappers
  import opened Text

  /**
   * `[parse(p) for p in ps]` where parse may raise: None as soon as one piece is refused,
   * otherwise the pieces' values in order.
   */
  function ParseAll<T>(ps: seq<string>, parse: string -> Option<T>): (r: Option<seq<T>>)
    ensures r.Some? <==> forall i :: 0 <= i < |ps| ==> parse(ps[i]).Some?
    ensures r.Some? ==> |r.value| == |ps| && forall i :: 0 <= i < |ps| ==> parse(ps[i]) == Some(r.value[i])
  {
    if ps == [] then Some([])
    else
      match parse(ps[0])
      case None => None
      case Some(x) =>
        match ParseAll(ps[1..], parse)
        case None =>
          assert exists i :: 0 <= i < |ps[1..]| && parse(ps[1..][i]).None?;
          None
        case Some(xs) =>
          assert forall i :: 1 <= i < |ps| ==> ps[i] == ps[1..][i - 1];
          Some([x] + xs)
  }

  /** When every piece parses to the matching value, the list parses to the values. */
  lemma {:induction false} ParseAllOf<T>(ps: seq<string>, parse: string -> Option<T>, xs: seq<T>)
    requires |ps| == |xs| && forall i :: 0 <= i < |ps| ==> parse(ps[i]) == Some(xs[i])
    ensures ParseAll(ps, parse) == Some(xs)
  {
    var r := ParseAll(ps, parse).value;
    assert forall i :: 0 <= i < |xs| ==> Some(r[i]) == Some(xs[i]);
    assert r == xs;
  }

  /** Every piece is a text `int` accepts. */
  predicate AllInts(ps: seq<string>) {
    forall i :: 0 <= i < |ps| ==> PyInt(ps[i]).Some?
  }

  /** numeric_list: defined exactly when every whitespace-separated word is an integer text. */
  function NumericList(s: string): (r: Option<seq<int>>)
    ensures r.Some? <==> AllInts(SplitWhitespace(s))
    ensures r.Some? ==> |r.value| == |SplitWhitespace(s)|
  {
    var ps := SplitWhitespace(s);
    assert AllInts(ps) <==> forall i :: 0 <= i < |ps| ==> (PyInt)(ps[i]).Some?;
    ParseAll(ps, PyInt)
  }

  /** `[str(x) for x in xs]`. */
  function IntStrings(xs: seq<int>): (r: seq<string>)
    ensures |r| == |xs| && forall i :: 0 <= i < |xs| ==> r[i] == IntToString(xs[i])
  {
    if xs == [] then [] else [IntToString(xs[0])] + IntStrings(xs[1..])
  }

  /** The text of an integer is a single word. */
  lemma {:induction false} IntStringIsSplitWord(x: int)
    ensures IsSplitWord(IntToString(x))
  {
    var r := IntToString(x);
    forall i | 0 <= i < |r| ensures !IsSpace(r[i]) {
      if x < 0 && i > 0 {
        assert r[i] == r[1..][i - 1];
      }
    }
  }

  /** `int(str(x)) == x` for every element: the integers' texts read back as the integers. */
  lemma {:induction false} PyIntsOfIntStrings(xs: seq<int>)
    ensures ParseAll(IntStrings(xs), PyInt) == Some(xs)
  {
    var ps := IntStrings(xs);
    forall i | 0 <= i < |xs| ensures PyInt(ps[i]) == Some(xs[i]) {
      PyIntOfIntToString(xs[i]);
    }
    ParseAllOf(ps, PyInt, xs);
  }

  /** A space-separated list of integers reads back as those integers. */
  lemma {:induction false} NumericListRoundTrip(xs: seq<int>)
    ensures NumericList(Join(IntStrings(xs), ' ')) == Some(xs)
  {
    var ps := IntStrings(xs);
    forall i | 0 <= i < |ps| ensures IsSplitWord(ps[i]) {
      IntStringIsSplitWord(xs[i]);
    }
    SplitWhitespaceJoin(ps);
    PyIntsOfIntStrings(xs);
  }

  /** One word that is not an integer makes the whole list fail. */
  lemma {:induction false} NumericListRejects(s: string, i: nat)
    requires i < |SplitWhitespace(s)| && PyInt(SplitWhitespace(s)[i]) == None
    ensures NumericList(s) == None
  {
  }
}
