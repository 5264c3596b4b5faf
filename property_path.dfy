/**
 * Serialized property paths. Unity names a list element in a property path
 * as `list.Array.data[3]`; GetObjectFromProperty rewrites that to `list[3]`
 * and GetObjectFromPath reads the dot-separated elements one by one, an
 * element with a '[' being a member name followed by an index.
 */
module PropertyPaths {
  import W = Wrappers
  import opened Strings

  /** One element of a path: a member, or an element of an enumerable member. */
  datatype Segment = Member(name: string) | Element(name: string, index: int)

  /** The name of an element is everything before its first '['. */
  lemma NameBeforeBracket(element: string, at: int)
    requires 0 <= at < |element| && element[at] == '[' && '[' !in element[..at]
    ensures StartsWith(element, element[..at] + "[")
  {
    assert element[..at] + "[" == element[..at + 1];
  }

  /** How GetObjectFromPath reads one element: `name`, or `name[index]`. */
  function ParseSegment(element: string): (r: W.Result<Segment, ParseError>)
    // an element without '[' names a member, as it is
    ensures '[' !in element ==> r == W.Success(Member(element))
    // otherwise the name is everything before the first '['
    ensures '[' in element && r.Success? ==>
      r.value.Element? && '[' !in r.value.name && StartsWith(element, r.value.name + "[")
  {
    ContainsChar(element, '[');
    if Contains(element, "[") then
      var at := IndexOf(element, '[');
      var text := Replace(Replace(element[at..], "[", ""), "]", "");
      match ParseInt32(text)
      case Failure(e) => W.Failure(e)
      case Success(n) =>
        NameBeforeBracket(element, at);
        W.Success(Element(element[..at], n))
    else W.Success(Member(element))
  }

  /**
   * The index of an element with '[' is the rest of the element, from the
   * first '[' on, with every bracket removed; the element fails exactly when
   * that text does not parse as an Int32.
   */
  lemma ParseSegmentIndex(element: string)
    requires '[' in element
    ensures var r := ParseSegment(element);
      var at := IndexOf(element, '[');
      var index := ParseInt32(Replace(Replace(element[at..], "[", ""), "]", ""));
      && (r.Failure? <==> index.Failure?)
      && (r.Success? ==> r.value.index == index.value)
  {
    ContainsChar(element, '[');
  }

  /** A member name as it appears in a path: no separator and no brackets. */
  predicate IsMemberName(n: string)
  {
    '.' !in n && '[' !in n && ']' !in n
  }

  predicate IsPathSegment(s: Segment)
  {
    IsMemberName(s.name) && (s.Element? ==> MinInt32 <= s.index <= MaxInt32)
  }

  predicate AllPathSegments(segs: seq<Segment>)
  {
    forall i :: 0 <= i < |segs| ==> IsPathSegment(segs[i])
  }

  /** The marker Unity puts between a list and the position of one of its elements. */
  const ArrayData: string := ".Array.data["

  /** A segment as GetObjectFromPath reads it. */
  function Compact(s: Segment): string
  {
    match s
    case Member(n) => n
    case Element(n, k) => n + "[" + Int32ToString(k) + "]"
  }

  /** A segment as Unity writes it in SerializedProperty.propertyPath. */
  function InUnity(s: Segment): string
  {
    match s
    case Member(n) => n
    case Element(n, k) => n + ArrayData + Int32ToString(k) + "]"
  }

  function CompactPath(segs: seq<Segment>): string
    requires |segs| >= 1
    decreases |segs|
  {
    if |segs| == 1 then Compact(segs[0]) else Compact(segs[0]) + "." + CompactPath(segs[1..])
  }

  function UnityPath(segs: seq<Segment>): string
    requires |segs| >= 1
    decreases |segs|
  {
    if |segs| == 1 then InUnity(segs[0]) else InUnity(segs[0]) + "." + UnityPath(segs[1..])
  }

  /** The rewrite GetObjectFromProperty applies to Unity's path. */
  function RewritePath(path: string): string
  {
    Replace(path, ArrayData, "[")
  }

  lemma Int32TextHasNoMarks(k: int)
    ensures '[' !in Int32ToString(k) && ']' !in Int32ToString(k) && '.' !in Int32ToString(k)
  {
    var d := DigitsOf(if k < 0 then -k else k);
    assert forall j :: 0 <= j < |d| ==> IsDigit(d[j]);
    if k < 0 {
      assert Int32ToString(k) == "-" + d;
    }
  }

  /** Removing the brackets around an index text leaves the text. */
  lemma StripBrackets(d: string)
    requires '[' !in d && ']' !in d
    ensures Replace(Replace("[" + d + "]", "[", ""), "]", "") == d
  {
    assert Replace("[" + d + "]", "[", "") == d + "]" by {
      ReplaceOccurrence("", "[", d + "]", "");
      assert "" + "[" + (d + "]") == "[" + d + "]";
      ReplaceWithoutLastChar(d + "]", "[", "");
    }
    assert Replace(d + "]", "]", "") == d by {
      ReplaceOccurrence(d, "]", "", "");
      assert d + "]" + "" == d + "]";
      assert d + "" + "" == d;
    }
  }

  /** In `name[...]`, the first '[' is the one after the name. */
  lemma BracketAfterName(n: string, rest: string)
    requires '[' !in n
    ensures IndexOf(n + "[" + rest, '[') == |n|
  {
    var e := n + "[" + rest;
    assert e[|n|] == '[' && e[..|n|] == n;
  }

  /** Every element written as `name[index]` is read back as that segment. */
  lemma ParseSegmentRoundTrip(s: Segment)
    requires IsPathSegment(s)
    ensures ParseSegment(Compact(s)) == W.Success(s)
  {
    if s.Element? {
      var n, d := s.name, Int32ToString(s.index);
      var e := n + "[" + d + "]";
      assert e == n + "[" + (d + "]");
      Int32TextHasNoMarks(s.index);
      BracketAfterName(n, d + "]");
      assert e[..|n|] == n;
      assert e[|n|..] == "[" + d + "]";
      StripBrackets(d);
      ParseInt32RoundTrip(s.index);
      ContainsChar(e, '[');
    }
  }

  /** The first eleven characters of a Unity path hold no '['. */
  lemma {:induction false} UnityPathOpensLate(segs: seq<Segment>)
    requires |segs| >= 1 && AllPathSegments(segs)
    ensures forall j :: 0 <= j < |ArrayData| - 1 && j < |UnityPath(segs)| ==> UnityPath(segs)[j] != '['
    decreases |segs|
  {
    var p := UnityPath(segs);
    var s := segs[0];
    assert IsPathSegment(s);
    forall j | 0 <= j < |ArrayData| - 1 && j < |p|
      ensures p[j] != '['
    {
      if j < |s.name| {
        assert p[j] == s.name[j];
      } else if s.Element? {
        assert p[j] == ArrayData[j - |s.name|];
      } else {
        assert p == s.name + "." + UnityPath(segs[1..]);
        if j > |s.name| {
          UnityPathOpensLate(segs[1..]);
          assert p[j] == UnityPath(segs[1..])[j - |s.name| - 1];
        }
      }
    }
  }

  /** One segment is rewritten on its own, whatever Unity path follows it. */
  lemma RewriteSegment(s: Segment, rest: string)
    requires IsPathSegment(s)
    requires forall j :: 0 <= j < |ArrayData| - 1 && j < |rest| ==> rest[j] != '['
    ensures RewritePath(InUnity(s) + rest) == Compact(s) + RewritePath(rest)
  {
    match s
    case Member(n) =>
      ReplaceSkipsUnmarked(n, rest, ArrayData, "[");
    case Element(n, k) =>
      var d := Int32ToString(k);
      Int32TextHasNoMarks(k);
      assert ArrayData[..|ArrayData| - 1] == ".Array.data";
      ReplaceOccurrence(n, ArrayData, d + "]" + rest, "[");
      assert InUnity(s) + rest == n + ArrayData + (d + "]" + rest);
      ReplaceSkipsUnmarked(d + "]", rest, ArrayData, "[");
  }

  /** The '.' between two segments survives the rewrite, and opens no marker. */
  lemma RewriteDotTail(tail: string)
    requires forall j :: 0 <= j < |ArrayData| - 1 && j < |tail| ==> tail[j] != '['
    ensures RewritePath("." + tail) == "." + RewritePath(tail)
    ensures forall j :: 0 <= j < |ArrayData| - 1 && j < |"." + tail| ==> ("." + tail)[j] != '['
  {
    ReplaceSkipsUnmarked(".", tail, ArrayData, "[");
    forall j | 0 <= j < |ArrayData| - 1 && j < |"." + tail|
      ensures ("." + tail)[j] != '['
    {
      if j > 0 {
        assert ("." + tail)[j] == tail[j - 1];
      }
    }
  }

  /** The rewrite turns every `.Array.data[` of a Unity path into `[`, and nothing else. */
  lemma {:induction false} RewriteUnityPath(segs: seq<Segment>)
    requires |segs| >= 1 && AllPathSegments(segs)
    ensures RewritePath(UnityPath(segs)) == CompactPath(segs)
    decreases |segs|
  {
    assert IsPathSegment(segs[0]);
    if |segs| == 1 {
      RewriteSegment(segs[0], "");
      assert InUnity(segs[0]) + "" == InUnity(segs[0]);
      assert Replace("", ArrayData, "[") == "";
    } else {
      var tail := UnityPath(segs[1..]);
      RewriteUnityPath(segs[1..]);
      UnityPathOpensLate(segs[1..]);
      RewriteDotTail(tail);
      RewriteSegment(segs[0], "." + tail);
      assert UnityPath(segs) == InUnity(segs[0]) + ("." + tail);
    }
  }

  /** The elements of a compact path, as Split('.') returns them. */
  function Compacts(segs: seq<Segment>): (parts: seq<string>)
    ensures |parts| == |segs|
  {
    seq(|segs|, i requires 0 <= i < |segs| => Compact(segs[i]))
  }

  lemma {:induction false} SplitCompactPath(segs: seq<Segment>)
    requires |segs| >= 1 && AllPathSegments(segs)
    ensures Split(CompactPath(segs), '.') == Compacts(segs)
    decreases |segs|
  {
    var parts := Compacts(segs);
    forall i | 0 <= i < |parts|
      ensures '.' !in parts[i]
    {
      assert IsPathSegment(segs[i]);
      if segs[i].Element? {
        Int32TextHasNoMarks(segs[i].index);
      }
    }
    JoinCompacts(segs);
    SplitJoin(parts, '.');
  }

  lemma {:induction false} JoinCompacts(segs: seq<Segment>)
    requires |segs| >= 1
    ensures Join(Compacts(segs), '.') == CompactPath(segs)
    decreases |segs|
  {
    if |segs| > 1 {
      JoinCompacts(segs[1..]);
      assert Compacts(segs)[1..] == Compacts(segs[1..]);
    }
  }

  /**
   * The path Unity writes for a chain of members and list elements is read
   * back, after the rewrite and the split, as exactly that chain.
   */
  lemma ReadUnityPath(segs: seq<Segment>)
    requires |segs| >= 1 && AllPathSegments(segs)
    ensures var elements := Split(RewritePath(UnityPath(segs)), '.');
      && |elements| == |segs|
      && forall i :: 0 <= i < |segs| ==> ParseSegment(elements[i]) == W.Success(segs[i])
  {
    RewriteUnityPath(segs);
    SplitCompactPath(segs);
    forall i | 0 <= i < |segs|
      ensures ParseSegment(Compacts(segs)[i]) == W.Success(segs[i])
    {
      assert IsPathSegment(segs[i]);
      ParseSegmentRoundTrip(segs[i]);
    }
  }
}
