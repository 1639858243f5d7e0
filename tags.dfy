/** Tag parsing as the create and edit routes do it: split the form input on
    ',', strip each piece with Python's `str.strip()`, drop the empty ones. */
module Tags {

  /** Python's `str.isspace()` for one character: the characters `str.strip()` removes. */
  predicate IsSpace(c: char) {
    c == ' ' || ('\t' <= c <= '\r') || ('\U{1C}' <= c <= '\U{1F}')
    || c == '\U{85}' || c == '\U{A0}' || c == '\U{1680}'
    || ('\U{2000}' <= c <= '\U{200A}') || c == '\U{2028}' || c == '\U{2029}'
    || c == '\U{202F}' || c == '\U{205F}' || c == '\U{3000}'
  }

  /** Every character of `s` is white space (the empty string included). */
  predicate Blank(s: string) {
    forall i :: 0 <= i < |s| ==> IsSpace(s[i])
  }

  /** `s` neither starts nor ends with white space. */
  predicate Trimmed(s: string) {
    s == [] || (!IsSpace(s[0]) && !IsSpace(s[|s| - 1]))
  }

  /** What the parser promises of each tag it returns. */
  predicate IsTag(t: string) {
    t != [] && Trimmed(t) && ',' !in t
  }

  /** `s` without its longest blank prefix. */
  function TrimLeft(s: string): string {
    if s != [] && IsSpace(s[0]) then TrimLeft(s[1..]) else s
  }

  /** TrimLeft keeps a suffix of `s`, drops only white space, and stops at
      the first character that is not white space. */
  lemma {:induction false} TrimLeftSuffix(s: string)
    ensures |TrimLeft(s)| <= |s| && TrimLeft(s) == s[|s| - |TrimLeft(s)|..]
    ensures TrimLeft(s) == [] || !IsSpace(TrimLeft(s)[0])
    ensures Blank(s[..|s| - |TrimLeft(s)|])
  {
    if s != [] && IsSpace(s[0]) {
      var t := s[1..];
      TrimLeftSuffix(t);
      var n := |t| - |TrimLeft(t)|;
      assert t[n..] == s[n + 1..];
      var head := s[..n + 1];
      forall k | 0 <= k < |head| ensures IsSpace(head[k]) {
        if k > 0 { assert head[k] == t[..n][k - 1]; }
      }
    } else {
      assert s[|s| - |s|..] == s;
    }
  }

  /** `s` without its longest blank suffix. */
  function TrimRight(s: string): string {
    if s != [] && IsSpace(s[|s| - 1]) then TrimRight(s[..|s| - 1]) else s
  }

  /** TrimRight keeps a prefix of `s`, drops only white space, and stops at
      the last character that is not white space. */
  lemma {:induction false} TrimRightPrefix(s: string)
    ensures |TrimRight(s)| <= |s| && TrimRight(s) == s[..|TrimRight(s)|]
    ensures TrimRight(s) == [] || !IsSpace(TrimRight(s)[|TrimRight(s)| - 1])
    ensures Blank(s[|TrimRight(s)|..])
  {
    if s != [] && IsSpace(s[|s| - 1]) {
      var t := s[..|s| - 1];
      TrimRightPrefix(t);
      var m := |TrimRight(t)|;
      assert t[..m] == s[..m];
      forall k | 0 <= k < |s| - m ensures IsSpace(s[m..][k]) {
        if m + k < |s| - 1 { assert s[m..][k] == t[m..][k]; }
      }
    } else {
      assert s[..|s|] == s;
    }
  }

  /** Python's `str.strip()`: `s` with its blank prefix and suffix removed. */
  function Strip(s: string): (r: string)
    ensures Trimmed(r)
  {
    TrimLeftSuffix(s);
    TrimRightPrefix(TrimLeft(s));
    TrimRight(TrimLeft(s))
  }

  /** The stripped string is the part of `s` left between a blank prefix and a blank suffix. */
  lemma StripSlice(s: string) returns (i: nat)
    ensures i + |Strip(s)| <= |s| && s[i..i + |Strip(s)|] == Strip(s)
    ensures Blank(s[..i]) && Blank(s[i + |Strip(s)|..])
  {
    var l := TrimLeft(s);
    TrimLeftSuffix(s);
    TrimRightPrefix(l);
    var r := TrimRight(l);
    i := |s| - |l|;
    assert s[i..i + |r|] == r;
    assert s[i + |r|..] == l[|r|..];
  }

  /** Stripping removes everything exactly when the input is blank. */
  lemma StripEmpty(s: string)
    ensures Strip(s) == [] <==> Blank(s)
  {
    var r := Strip(s);
    var i := StripSlice(s);
    if r != [] {
      assert s[i] == r[0];
    } else {
      assert forall k :: 0 <= k < |s| ==> IsSpace(s[k]) by {
        forall k | 0 <= k < |s| ensures IsSpace(s[k]) {
          if k < i { assert s[..i][k] == s[k]; } else { assert s[i..][k - i] == s[k]; }
        }
      }
    }
  }

  /** Every character of the stripped string occurs in the input. */
  lemma StripInside(s: string, c: char)
    requires c in Strip(s)
    ensures c in s
  {
    var r := Strip(s);
    var i := StripSlice(s);
    var k :| 0 <= k < |r| && r[k] == c;
    assert s[i + k] == c;
  }

  /** Python's `str.split(',')`: the pieces between commas, one more than there are commas. */
  function Split(s: string): (pieces: seq<string>)
    ensures |pieces| >= 1
  {
    if s == [] then [[]]
    else
      var rest := Split(s[1..]);
      if s[0] == ',' then [[]] + rest
      else [[s[0]] + rest[0]] + rest[1..]
  }

  /** No piece contains the separator. */
  lemma {:induction false} SplitPieces(s: string)
    ensures forall p :: p in Split(s) ==> ',' !in p
  {
    if s != [] {
      var rest := Split(s[1..]);
      SplitPieces(s[1..]);
      assert rest[0] in rest;
      if s[0] == ',' {
        assert Split(s) == [[]] + rest;
      } else {
        var first := [s[0]] + rest[0];
        assert Split(s) == [first] + rest[1..];
        assert ',' !in first;
        assert forall p :: p in rest[1..] ==> p in rest;
      }
    }
  }

  /** Joining the pieces back with ',' gives the input: nothing is lost by splitting. */
  lemma {:induction false} JoinSplit(s: string)
    ensures Join(Split(s), ",") == s
  {
    if s != [] {
      var tail := s[1..];
      var rest := Split(tail);
      JoinSplit(tail);
      assert s == [s[0]] + tail;
      if s[0] == ',' {
        SplitComma(tail);
        JoinCons([], rest, ",");
      } else {
        var first := [s[0]] + rest[0];
        SplitCons(s[0], tail);
        if |rest| == 1 {
          assert Join([first] + rest[1..], ",") == first;
        } else {
          JoinCons(first, rest[1..], ",");
          assert [rest[0]] + rest[1..] == rest;
          JoinCons(rest[0], rest[1..], ",");
          assert first + "," + Join(rest[1..], ",") == [s[0]] + (rest[0] + "," + Join(rest[1..], ","));
        }
      }
    }
  }

  lemma JoinCons(p: string, ps: seq<string>, sep: string)
    requires |ps| >= 1
    ensures Join([p] + ps, sep) == p + sep + Join(ps, sep)
  {
    assert ([p] + ps)[1..] == ps;
  }

  /** The pieces `ps` with `sep` between consecutive ones (Python's `sep.join(ps)`). */
  function Join(ps: seq<string>, sep: string): string {
    if |ps| == 0 then []
    else if |ps| == 1 then ps[0]
    else ps[0] + sep + Join(ps[1..], sep)
  }

  /** The stripped pieces that are not empty, in order. */
  function KeepNonBlank(ps: seq<string>): seq<string>
  {
    if ps == [] then []
    else
      var t := Strip(ps[0]);
      (if t != [] then [t] else []) + KeepNonBlank(ps[1..])
  }

  /** `[tag.strip() for tag in input.split(',') if tag.strip()]`. */
  function ParseTags(input: string): (tags: seq<string>)
    ensures forall t :: t in tags ==> IsTag(t)
  {
    var ps := Split(input);
    SplitPieces(input);
    KeepNonBlankTags(ps);
    KeepNonBlank(ps)
  }

  /** Kept pieces are stripped and not empty, and stripping never introduces
      a comma, so comma-free pieces give tags. */
  lemma {:induction false} KeepNonBlankTags(ps: seq<string>)
    requires forall p :: p in ps ==> ',' !in p
    ensures forall t :: t in KeepNonBlank(ps) ==> IsTag(t)
  {
    if ps != [] {
      assert ps[0] in ps;
      if ',' in Strip(ps[0]) { StripInside(ps[0], ','); }
      assert forall p :: p in ps[1..] ==> p in ps;
      KeepNonBlankTags(ps[1..]);
    }
  }

  /** A trimmed string is its own stripped form; in particular stripping is idempotent. */
  lemma StripTrimmed(t: string)
    requires Trimmed(t)
    ensures Strip(t) == t
  {
    assert TrimLeft(t) == t;
    assert TrimRight(t) == t;
  }

  /** A leading white-space character does not change the stripped form. */
  lemma StripSpaceCons(c: char, p: string)
    requires IsSpace(c)
    ensures Strip([c] + p) == Strip(p)
  {
    assert ([c] + p)[1..] == p;
  }

  /** A string without commas is a single piece. */
  lemma {:induction false} SplitNoComma(t: string)
    requires ',' !in t
    ensures Split(t) == [t]
  {
    if t != [] {
      assert ',' !in t[1..] by { assert forall c :: c in t[1..] ==> c in t; }
      SplitNoComma(t[1..]);
      assert [t[0]] + t[1..] == t;
    }
  }

  /** A leading comma closes an empty first piece. */
  lemma SplitComma(y: string)
    ensures Split([','] + y) == [[]] + Split(y)
  {
    assert ([','] + y)[1..] == y;
  }

  /** A comma splits the input into the pieces before it followed by the pieces after it. */
  lemma {:induction false} SplitConcat(a: string, b: string)
    ensures Split(a + "," + b) == Split(a) + Split(b)
  {
    if a == [] {
      assert a + "," + b == [','] + b;
      SplitComma(b);
    } else {
      assert a == [a[0]] + a[1..];
      assert a + "," + b == [a[0]] + (a[1..] + "," + b);
      SplitConcat(a[1..], b);
      SplitConcatStep(a[0], a[1..], b);
    }
  }

  /** The inductive step of SplitConcat: one more character in front. */
  lemma SplitConcatStep(c: char, a: string, b: string)
    requires Split(a + "," + b) == Split(a) + Split(b)
    ensures Split([c] + (a + "," + b)) == Split([c] + a) + Split(b)
  {
    if c == ',' {
      SplitComma(a + "," + b);
      SplitComma(a);
      assert [[]] + (Split(a) + Split(b)) == ([[]] + Split(a)) + Split(b);
    } else {
      SplitConcatCons(c, a, b);
    }
  }

  lemma SplitConcatCons(c: char, a: string, b: string)
    requires c != ','
    requires Split(a + "," + b) == Split(a) + Split(b)
    ensures Split([c] + (a + "," + b)) == Split([c] + a) + Split(b)
  {
    SplitCons(c, a + "," + b);
    SplitCons(c, a);
    ExtendFirst([c], Split(a), Split(b));
  }

  /** Extending the first piece of `r + q` extends the first piece of `r`. */
  lemma ExtendFirst(p: string, r: seq<string>, q: seq<string>)
    requires |r| >= 1
    ensures [p + (r + q)[0]] + (r + q)[1..] == ([p + r[0]] + r[1..]) + q
  {
    assert (r + q)[0] == r[0];
    assert (r + q)[1..] == r[1..] + q;
  }

  lemma {:induction false} KeepNonBlankConcat(x: seq<string>, y: seq<string>)
    ensures KeepNonBlank(x + y) == KeepNonBlank(x) + KeepNonBlank(y)
  {
    if x == [] {
      assert x + y == y;
    } else {
      var h := if Strip(x[0]) != [] then [Strip(x[0])] else [];
      assert (x + y)[0] == x[0];
      assert (x + y)[1..] == x[1..] + y;
      KeepNonBlankConcat(x[1..], y);
      calc {
        KeepNonBlank(x + y);
        h + KeepNonBlank(x[1..] + y);
        h + (KeepNonBlank(x[1..]) + KeepNonBlank(y));
        (h + KeepNonBlank(x[1..])) + KeepNonBlank(y);
        KeepNonBlank(x) + KeepNonBlank(y);
      }
    }
  }

  /** Parsing distributes over a comma: the tags of `a + "," + b` are those
      of `a` followed by those of `b`. Together with ParseTagsPiece this
      determines ParseTags completely: one tag per non-blank piece, in order. */
  lemma ParseTagsConcat(a: string, b: string)
    ensures ParseTags(a + "," + b) == ParseTags(a) + ParseTags(b)
  {
    SplitConcat(a, b);
    KeepNonBlankConcat(Split(a), Split(b));
  }

  /** A single comma-free piece gives no tag if it is blank and its stripped form otherwise. */
  lemma ParseTagsPiece(p: string)
    requires ',' !in p
    ensures ParseTags(p) == if Blank(p) then [] else [Strip(p)]
  {
    SplitNoComma(p);
    StripEmpty(p);
    assert KeepNonBlank([p]) == (if Strip(p) != [] then [Strip(p)] else []) + KeepNonBlank([]);
  }

  /** Blank input gives no tags. */
  lemma ParseTagsBlank(s: string)
    requires Blank(s)
    ensures ParseTags(s) == []
  {
    assert forall k :: 0 <= k < |s| ==> s[k] != ',' by {
      forall k | 0 <= k < |s| ensures s[k] != ',' { assert IsSpace(s[k]); }
    }
    ParseTagsPiece(s);
  }

  /** A non-comma character extends the first piece. */
  lemma SplitCons(c: char, y: string)
    requires c != ','
    ensures Split([c] + y) == [[c] + Split(y)[0]] + Split(y)[1..]
  {
    assert ([c] + y)[1..] == y;
  }

  lemma KeepNonBlankCons(p: string, rest: seq<string>)
    ensures KeepNonBlank([p] + rest) == (if Strip(p) != [] then [Strip(p)] else []) + KeepNonBlank(rest)
  {
    assert ([p] + rest)[1..] == rest;
  }

  /** One leading white-space character does not change the tags. */
  lemma ParseTagsSpaceCons(c: char, y: string)
    requires IsSpace(c)
    ensures ParseTags([c] + y) == ParseTags(y)
  {
    var rest := Split(y);
    assert [rest[0]] + rest[1..] == rest;
    SplitCons(c, y);
    StripSpaceCons(c, rest[0]);
    calc {
      ParseTags([c] + y);
      KeepNonBlank([[c] + rest[0]] + rest[1..]);
      { KeepNonBlankCons([c] + rest[0], rest[1..]); }
      (if Strip(rest[0]) != [] then [Strip(rest[0])] else []) + KeepNonBlank(rest[1..]);
      { KeepNonBlankCons(rest[0], rest[1..]); }
      KeepNonBlank(rest);
    }
  }

  /** White space before the input does not change its tags. */
  lemma {:induction false} ParseTagsBlankPrefix(pad: string, x: string)
    requires Blank(pad)
    ensures ParseTags(pad + x) == ParseTags(x)
  {
    if pad == [] {
      assert pad + x == x;
    } else {
      var y := pad[1..] + x;
      assert pad + x == [pad[0]] + y;
      assert IsSpace(pad[0]);
      assert Blank(pad[1..]) by {
        forall k | 0 <= k < |pad[1..]| ensures IsSpace(pad[1..][k]) { assert pad[1..][k] == pad[k + 1]; }
      }
      ParseTagsBlankPrefix(pad[1..], x);
      ParseTagsSpaceCons(pad[0], y);
    }
  }

  /** Round trip: joining valid tags with a comma (and optional white space)
      and parsing the result gives the same tags back. */
  lemma {:induction false} ParseJoinRoundTrip(ts: seq<string>, pad: string)
    requires forall t :: t in ts ==> IsTag(t)
    requires Blank(pad)
    ensures ParseTags(Join(ts, "," + pad)) == ts
  {
    if |ts| == 0 {
      assert Split([]) == [[]];
    } else {
      assert IsTag(ts[0]);
      StripTrimmed(ts[0]);
      StripEmpty(ts[0]);
      ParseTagsPiece(ts[0]);
      if |ts| > 1 {
        var rest := Join(ts[1..], "," + pad);
        assert Join(ts, "," + pad) == ts[0] + "," + (pad + rest);
        ParseTagsConcat(ts[0], pad + rest);
        ParseTagsBlankPrefix(pad, rest);
        assert forall t :: t in ts[1..] ==> t in ts;
        ParseJoinRoundTrip(ts[1..], pad);
      }
    }
  }

  /** Re-parsing the comma-joined tags of any input gives the same tags. */
  lemma ParseTagsStable(input: string)
    ensures ParseTags(Join(ParseTags(input), ",")) == ParseTags(input)
  {
    assert "," + "" == ",";
    ParseJoinRoundTrip(ParseTags(input), "");
  }
}
