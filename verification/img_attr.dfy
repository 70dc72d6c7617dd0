/**
 * `check_imgattr`: the custom attributes written after a link, as in
 * `![](pic.png){width="300"}`. The plugin runs `re.match(r'.*\)\{(.*)\}', ...)`
 * on the text from the link's start to the end of its line; this module
 * computes the same match without regular expressions.
 */
module ImgAttr {
  import opened Wrappers

  /** The prefix of `s` up to its first newline: `.` never matches a newline, so the match stays inside it. */
  function FirstLine(s: string): (t: string)
    ensures t <= s && '\n' !in t
    ensures |t| == |s| || s[|t|] == '\n'
  {
    if s == [] || s[0] == '\n' then []
    else [s[0]] + FirstLine(s[1..])
  }

  /** `){` starts at index `i` of `t`. */
  predicate OpenAt(t: string, i: int)
  {
    0 <= i && i + 2 <= |t| && t[i] == ')' && t[i + 1] == '{'
  }

  /**
   * The pattern can match `t` with the first `.*` taking `t[..i]`, the group
   * taking `t[i + 2..b]` and the closing `\}` taking `t[b]`.
   */
  ghost predicate Matches(t: string, i: int, b: int)
  {
    OpenAt(t, i) && i + 2 <= b < |t| && t[b] == '}'
  }

  /** The pattern cannot match `t` at all. */
  ghost predicate NoMatch(t: string)
  {
    forall i, b :: !Matches(t, i, b)
  }

  /** `(i, b)` is a match with both the `){` and the `}` as far right as any match has them. */
  ghost predicate Greatest(t: string, i: int, b: int)
  {
    Matches(t, i, b) && forall i', b' :: Matches(t, i', b') ==> i' <= i && b' <= b
  }

  /** The last `}` among the first `n` characters of `t`. */
  function LastBrace(t: string, n: nat): (r: Option<nat>)
    requires n <= |t|
    ensures r.Some? ==> r.value < n && t[r.value] == '}'
    ensures r.Some? ==> forall k :: r.value < k < n ==> t[k] != '}'
    ensures r.None? ==> forall k :: 0 <= k < n ==> t[k] != '}'
  {
    if n == 0 then None
    else if t[n - 1] == '}' then Some(n - 1)
    else LastBrace(t, n - 1)
  }

  /** The last `){` that ends at or before index `n` of `t`. */
  function LastOpen(t: string, n: nat): (r: Option<nat>)
    requires n <= |t|
    ensures r.Some? ==> OpenAt(t, r.value) && r.value + 2 <= n
    ensures r.Some? ==> forall k :: r.value < k && k + 2 <= n ==> !OpenAt(t, k)
    ensures r.None? ==> forall k :: 0 <= k && k + 2 <= n ==> !OpenAt(t, k)
  {
    if n < 2 then None
    else if OpenAt(t, n - 2) then Some(n - 2)
    else LastOpen(t, n - 1)
  }

  /**
   * The match the greedy pattern settles on, as the pair (`){` index, `}` index):
   * the first `.*` backs off from the end only as far as the last `){` that still
   * has a `}` after it, and the group then runs to the last `}`.
   */
  function FindAttr(t: string): (r: Option<(nat, nat)>)
    ensures r.None? <==> NoMatch(t)
    ensures r.Some? ==> Greatest(t, r.value.0, r.value.1)
  {
    match LastBrace(t, |t|)
    case None => None
    case Some(b) =>
      match LastOpen(t, b)
      case None => None
      case Some(i) =>
        assert Matches(t, i, b);
        Some((i, b))
  }

  /**
   * `check_imgattr` given the text from the link's start to the end of its line:
   * the group of the match, or `''` when the pattern does not match.
   */
  function CheckImgAttr(linkTillEol: string): (r: string)
    ensures NoMatch(FirstLine(linkTillEol)) ==> r == ""
    ensures forall i, b :: Greatest(FirstLine(linkTillEol), i, b) ==> r == FirstLine(linkTillEol)[i + 2..b]
    ensures '\n' !in r
  {
    var t := FirstLine(linkTillEol);
    GreatestIsFound(t);
    match FindAttr(t)
    case None => ""
    case Some(m) => t[m.0 + 2..m.1]
  }

  /** There is at most one greatest match, and `FindAttr` returns it. */
  lemma GreatestIsFound(t: string)
    ensures forall i, b :: Greatest(t, i, b) ==> FindAttr(t) == Some((i, b))
  {
    forall i, b | Greatest(t, i, b) ensures FindAttr(t) == Some((i, b)) {
      var f := FindAttr(t);
      assert f.Some?;
      assert Matches(t, f.value.0, f.value.1);
    }
  }

  /** The attributes returned never contain `){`: a later one before the last `}` would have been chosen. */
  lemma NoOpenInAttr(linkTillEol: string, k: int)
    ensures !OpenAt(CheckImgAttr(linkTillEol), k)
  {
    var t := FirstLine(linkTillEol);
    var f := FindAttr(t);
    if f.Some? && OpenAt(CheckImgAttr(linkTillEol), k) {
      var i := f.value.0;
      var b := f.value.1;
      var r := t[i + 2..b];
      assert r[k] == t[i + 2 + k] && r[k + 1] == t[i + 2 + k + 1];
      assert Matches(t, i + 2 + k, b);
      assert false;
    }
  }

  /** A line without `){` before a `}` carries no custom attributes. */
  lemma NoBraceNoAttr(linkTillEol: string)
    requires '}' !in linkTillEol
    ensures CheckImgAttr(linkTillEol) == ""
  {
    var t := FirstLine(linkTillEol);
    forall i, b ensures !Matches(t, i, b) {
      if 0 <= b < |t| {
        assert t[b] == linkTillEol[b];
      }
    }
  }

  /**
   * Round trip: a link line ending in `){attrs}` (and nothing holding `}` after
   * it on that line) yields exactly `attrs`, provided `attrs` has no `){` of its own.
   */
  lemma AnnotationRoundTrip(prefix: string, attrs: string, tail: string)
    requires '\n' !in prefix && '\n' !in attrs && '}' !in tail
    requires forall k :: !OpenAt(attrs, k)
    ensures CheckImgAttr(prefix + "){" + attrs + "}" + tail) == attrs
  {
    AnnotatedFirstLine(prefix, attrs, tail);
    AnnotationMatch(prefix, attrs, FirstLine(tail));
    MatchedGroup(prefix + "){" + attrs + "}" + tail, prefix + "){" + attrs + "}" + FirstLine(tail), |prefix|, |prefix| + 2 + |attrs|);
  }

  /** The first line of an annotated link runs through the closing `}` into the first line of what follows. */
  lemma AnnotatedFirstLine(prefix: string, attrs: string, tail: string)
    requires '\n' !in prefix && '\n' !in attrs && '}' !in tail
    ensures FirstLine(prefix + "){" + attrs + "}" + tail) == prefix + "){" + attrs + "}" + FirstLine(tail)
    ensures '}' !in FirstLine(tail)
  {
    var line := prefix + "){" + attrs + "}";
    assert '\n' !in line;
    FirstLineOfJoin(line, tail);
    FirstLineKeeps(tail, '}');
  }

  /** A character absent from the text is absent from its first line. */
  lemma FirstLineKeeps(s: string, c: char)
    requires c !in s
    ensures c !in FirstLine(s)
  {
    var t := FirstLine(s);
    forall k | 0 <= k < |t| ensures t[k] != c {
      assert t[k] == s[k];
    }
  }

  /** When the first line's match is `(i, b)`, the attributes are the text between them. */
  lemma MatchedGroup(linkTillEol: string, t: string, i: nat, b: nat)
    requires FirstLine(linkTillEol) == t && FindAttr(t) == Some((i, b))
    ensures CheckImgAttr(linkTillEol) == t[i + 2..b]
  {
  }

  /** In `prefix){attrs}rest`, with no `}` in `rest` and no `){` in `attrs`, the match found is the one around `attrs`. */
  lemma AnnotationMatch(prefix: string, attrs: string, rest: string)
    requires '}' !in rest
    requires forall k :: !OpenAt(attrs, k)
    ensures FindAttr(prefix + "){" + attrs + "}" + rest) == Some((|prefix|, |prefix| + 2 + |attrs|))
    ensures (prefix + "){" + attrs + "}" + rest)[|prefix| + 2..|prefix| + 2 + |attrs|] == attrs
  {
    var t := prefix + "){" + attrs + "}" + rest;
    var i := |prefix|;
    var b := |prefix| + 2 + |attrs|;
    assert t[i] == ')' && t[i + 1] == '{' && t[b] == '}';
    forall k | b < k < |t| ensures t[k] != '}' {
      assert t[k] == rest[k - b - 1];
    }
    forall k | i < k && k + 2 <= b ensures !OpenAt(t, k) {
      if k > i + 1 {
        assert t[k] == attrs[k - i - 2] && t[k + 1] == attrs[k - i - 1];
        assert !OpenAt(attrs, k - i - 2);
      }
    }
    assert LastBrace(t, |t|) == Some(b);
    assert OpenAt(t, i);
    var o := LastOpen(t, b);
    assert o.Some? && i <= o.value;
    assert o.value == i;
    assert t[i + 2..b] == attrs;
  }

  /** The first line of `x + y`, when `x` has no newline, starts with all of `x`. */
  lemma {:induction false} FirstLineOfJoin(x: string, y: string)
    requires '\n' !in x
    ensures FirstLine(x + y) == x + FirstLine(y)
  {
    if x != [] {
      assert x[0] in x;
      assert (x + y)[0] == x[0] != '\n';
      assert (x + y)[1..] == x[1..] + y;
      assert FirstLine(x + y) == [x[0]] + FirstLine(x[1..] + y);
      FirstLineOfJoin(x[1..], y);
      assert [x[0]] + (x[1..] + FirstLine(y)) == x + FirstLine(y);
    } else {
      assert x + y == y;
    }
  }

}
