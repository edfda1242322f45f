/** The attribute serializer behind `_attributes`: name validation, the value
    transformation, the `href` scheme strip and the fragment format, with the
    whole effect of one call (including the process-wide cache) stated as
    `AttributesStep`. */
module AttributeSerializer {
  import opened RubyValues
  import opened Escaping

  /** One keyword argument of an element call, in insertion order. */
  datatype Attr = Attr(name: string, value: Value)

  /** The exceptions the emission protocol raises. */
  datatype Error =
    | ContentAndBlock        // ArgumentError: explicit content and a block together
    | UnsafeAttributeName    // ArgumentError: "Unsafe attribute name detected."
    | HrefNotString          // NoMethodError: `sub!` sent to a truthy non-String href

  datatype Outcome = Completed | Raised(error: Error)

  /** The `Tag::*` string constants. Their values are defined outside this
      model, so they are parameters. */
  datatype Tags = Tags(left: string, right: string, closeLeft: string,
                       closeVoidRight: string, space: string,
                       equalsQuote: string, quote: string)

  /** What one emission call does: how it ends, what it appends to the
      target, and the attribute cache it leaves behind. */
  datatype Effect = Effect(outcome: Outcome, appended: string, entries: map<int, string>)

  // ---------------------------------------------------------------- names

  predicate SafeName(name: string) {
    forall i :: 0 <= i < |name| ==> !Reserved(name[i])
  }

  predicate NamesSafe(attrs: seq<Attr>) {
    forall i :: 0 <= i < |attrs| ==> SafeName(attrs[i].name)
  }

  // --------------------------------------------------------------- values

  /** `transform_values!`: booleans stay, everything else becomes the escaped
      text of its `to_s` (so `nil` becomes `""`). */
  function TransformValue(v: Value): (r: Value)
    ensures v.Bool? ==> r == v
    ensures !v.Bool? ==> r.Str? && NoMarkup(r.s) && Unescape(r.s) == ToS(v)
  {
    if v.Bool? then v
    else
      UnescapeEscape(ToS(v));
      Str(Escape(ToS(v)))
  }

  /** A value as it may be emitted: a boolean, or text without raw markup. */
  predicate SafeValue(v: Value) {
    v.Bool? || (v.Str? && NoMarkup(v.s))
  }

  function TransformValues(attrs: seq<Attr>): (t: seq<Attr>)
    ensures |t| == |attrs|
    ensures forall i :: 0 <= i < |t| ==> t[i] == Attr(attrs[i].name, TransformValue(attrs[i].value))
  {
    seq(|attrs|, i requires 0 <= i < |attrs| => Attr(attrs[i].name, TransformValue(attrs[i].value)))
  }

  /** `attributes[:href]`: the position of the first attribute with the given name. */
  function FirstIndex(attrs: seq<Attr>, name: string, from: nat): (r: Option<nat>)
    requires from <= |attrs|
    ensures r.Some? ==> from <= r.value < |attrs| && attrs[r.value].name == name
    ensures r.Some? ==> forall j :: from <= j < r.value ==> attrs[j].name != name
    ensures r.None? ==> forall j :: from <= j < |attrs| ==> attrs[j].name != name
    decreases |attrs| - from
  {
    if from == |attrs| then None
    else if attrs[from].name == name then Some(from)
    else FirstIndex(attrs, name, from + 1)
  }

  // ------------------------------------------- the href scheme strip (sub!)

  const Scheme: string := "javascript:"

  /** Ruby's `\s`: space, tab, line feed, carriage return, vertical tab, form feed. */
  predicate RegexSpace(c: char) {
    c == ' ' || c == '\t' || c == '\n' || c == '\r' || c == '\U{000B}' || c == '\U{000C}'
  }

  /** Ruby's `^` matches at the start of the string and after every line feed. */
  predicate LineStart(s: string, p: nat) {
    p == 0 || (p <= |s| && s[p - 1] == '\n')
  }

  predicate SchemeAt(s: string, i: nat) {
    i + |Scheme| <= |s| && s[i..i + |Scheme|] == Scheme
  }

  /** Length of the greedy `\s*` starting at `i`. */
  function SpaceRun(s: string, i: nat): (n: nat)
    requires i <= |s|
    ensures i + n <= |s|
    decreases |s| - i
  {
    if i < |s| && RegexSpace(s[i]) then 1 + SpaceRun(s, i + 1) else 0
  }

  /** The run is all spaces, and the character after it (if any) is not one. */
  lemma {:induction false} SpaceRunSpaces(s: string, i: nat)
    requires i <= |s|
    ensures forall j :: i <= j < i + SpaceRun(s, i) ==> RegexSpace(s[j])
    ensures i + SpaceRun(s, i) == |s| || !RegexSpace(s[i + SpaceRun(s, i)])
    decreases |s| - i
  {
    if i < |s| && RegexSpace(s[i]) {
      SpaceRunSpaces(s, i + 1);
    }
  }

  /** `k` copies of `p`, one after the other. */
  function Repeat(p: string, k: nat): string {
    if k == 0 then [] else p + Repeat(p, k - 1)
  }

  /** Length of the greedy `(javascript:)+` starting at `i`, 0 when it does
      not match; what follows a match is not another `javascript:`. */
  function SchemeRun(s: string, i: nat): (n: nat)
    requires i <= |s|
    ensures i + n <= |s|
    ensures n > 0 <==> SchemeAt(s, i)
    ensures n == 0 || !SchemeAt(s, i + n)
    decreases |s| - i
  {
    if SchemeAt(s, i) then |Scheme| + SchemeRun(s, i + |Scheme|) else 0
  }

  /** The run is made of whole copies of `javascript:` and nothing else. */
  lemma {:induction false} SchemeRunCopies(s: string, i: nat)
    requires i <= |s|
    ensures exists k: nat :: s[i..i + SchemeRun(s, i)] == Repeat(Scheme, k)
    decreases |s| - i
  {
    if SchemeAt(s, i) {
      var j := i + |Scheme|;
      var m := SchemeRun(s, j);
      SchemeRunCopies(s, j);
      var k: nat :| s[j..j + m] == Repeat(Scheme, k);
      assert s[i..j + m] == s[i..j] + s[j..j + m];
      assert s[i..i + SchemeRun(s, i)] == Repeat(Scheme, k + 1);
    } else {
      assert s[i..i] == Repeat(Scheme, 0);
    }
  }

  /** Length of the match of `\s*(javascript:)+` at `p`, 0 when there is none. */
  function MatchLen(s: string, p: nat): (n: nat)
    requires p <= |s|
    ensures p + n <= |s|
  {
    var w := SpaceRun(s, p);
    var k := SchemeRun(s, p + w);
    if k == 0 then 0 else w + k
  }

  /** `^\s*(javascript:)+` matches at `p`. */
  predicate MatchesAt(s: string, p: nat) {
    p <= |s| && LineStart(s, p) && MatchLen(s, p) > 0
  }

  /** The leftmost position at or after `p` where the pattern matches. */
  function FirstMatch(s: string, p: nat): (r: Option<nat>)
    requires p <= |s|
    ensures r.Some? ==> p <= r.value < |s| && MatchesAt(s, r.value)
    decreases |s| - p
  {
    if MatchesAt(s, p) then Some(p)
    else if p == |s| then None
    else FirstMatch(s, p + 1)
  }

  /** No position before the one found (or, without a match, none at all) matches. */
  lemma {:induction false} FirstMatchLeftmost(s: string, p: nat, q: nat)
    requires p <= q <= |s|
    requires FirstMatch(s, p).Some? ==> q < FirstMatch(s, p).value
    ensures !MatchesAt(s, q)
    decreases q - p
  {
    if q > p {
      FirstMatchLeftmost(s, p + 1, q);
    }
  }

  /** `sub!(/^\s*(javascript:)+/, "")`: removes the first match only. The
      text changes exactly when there is a match, never grows, and gains no
      raw markup. */
  function StripScheme(s: string): (r: string)
    ensures FirstMatch(s, 0).None? <==> r == s
    ensures |r| <= |s|
  {
    match FirstMatch(s, 0)
    case None => s
    case Some(p) => s[..p] + s[p + MatchLen(s, p)..]
  }

  /** The strip only removes characters, so it adds no raw markup. */
  lemma StripKeepsNoMarkup(s: string)
    requires NoMarkup(s)
    ensures NoMarkup(StripScheme(s))
  {
    match FirstMatch(s, 0)
    case None =>
    case Some(p) =>
      var n := MatchLen(s, p);
      var r := s[..p] + s[p + n..];
      forall i | 0 <= i < |r|
        ensures !Reserved(r[i]) || r[i] == '&'
      {
        if i < p {
          assert r[i] == s[i];
        } else {
          assert r[i] == s[i + n];
        }
      }
  }

  /** What a match consists of: a run of spaces, then one or more whole
      copies of `javascript:`, with no further copy directly after them. */
  lemma MatchShape(s: string, p: nat)
    requires p <= |s| && MatchLen(s, p) > 0
    ensures forall j :: p <= j < p + SpaceRun(s, p) ==> RegexSpace(s[j])
    ensures p + SpaceRun(s, p) == |s| || !RegexSpace(s[p + SpaceRun(s, p)])
    ensures exists k: nat :: k > 0 && s[p + SpaceRun(s, p)..p + MatchLen(s, p)] == Repeat(Scheme, k)
    ensures !SchemeAt(s, p + MatchLen(s, p))
  {
    var w := SpaceRun(s, p);
    var n := MatchLen(s, p);
    assert n == w + SchemeRun(s, p + w);
    SpaceRunSpaces(s, p);
    SchemeRunCopies(s, p + w);
    var k: nat :| s[p + w..p + n] == Repeat(Scheme, k);
    assert Repeat(Scheme, 0) == [];
    assert k > 0 && s[p + w..p + n] == Repeat(Scheme, k);
  }

  /** What one strip removes: the match at the leftmost line start where
      the pattern matches (its shape is `MatchShape`), and nothing else. */
  lemma StripRemovesOneMatch(s: string, p: nat)
    requires FirstMatch(s, 0) == Some(p)
    ensures LineStart(s, p) && MatchLen(s, p) > 0
    ensures forall q :: 0 <= q < p ==> !MatchesAt(s, q)
    ensures StripScheme(s) == s[..p] + s[p + MatchLen(s, p)..]
  {
    assert MatchesAt(s, p);
    LeftmostBefore(s, p);
  }

  lemma LeftmostBefore(s: string, p: nat)
    requires FirstMatch(s, 0) == Some(p)
    ensures forall q :: 0 <= q < p ==> !MatchesAt(s, q)
  {
    forall q | 0 <= q < p
      ensures !MatchesAt(s, q)
    {
      FirstMatchLeftmost(s, 0, q);
    }
  }

  /** `attributes[:href].sub!(...) if attributes[:href]` on the transformed
      attributes: a falsy or absent href is left alone, a String is stripped,
      and any other truthy value has no `sub!`. */
  datatype Prepared = Prepared(attrs: seq<Attr>) | Rejected(error: Error)

  function SubHref(t: seq<Attr>): (r: Prepared)
    ensures r.Rejected? ==> r.error == HrefNotString
    ensures FirstIndex(t, "href", 0).None? ==> r == Prepared(t)
    ensures r.Prepared? ==> |r.attrs| == |t|
    ensures r.Prepared? ==> forall j :: 0 <= j < |t| ==> r.attrs[j].name == t[j].name
    ensures r.Prepared? ==> forall j :: 0 <= j < |t| && t[j].name != "href" ==> r.attrs[j] == t[j]
    ensures FirstIndex(t, "href", 0).Some? ==>
              var i := FirstIndex(t, "href", 0).value;
              && (r.Rejected? <==> Truthy(t[i].value) && !t[i].value.Str?)
              && (r.Prepared? ==> r.attrs[i].value == (if t[i].value.Str? then Str(StripScheme(t[i].value.s)) else t[i].value))
  {
    match FirstIndex(t, "href", 0)
    case None => Prepared(t)
    case Some(i) =>
      var v := t[i].value;
      if !Truthy(v) then Prepared(t)
      else if v.Str? then Prepared(t[i := Attr(t[i].name, Str(StripScheme(v.s)))])
      else Rejected(HrefNotString)
  }

  /** Validation, then `transform_values!`, then the href strip. */
  function Prepare(attrs: seq<Attr>): (r: Prepared)
    ensures r == Rejected(UnsafeAttributeName) <==> !NamesSafe(attrs)
    ensures r.Rejected? ==> r.error == UnsafeAttributeName || r.error == HrefNotString
    ensures r.Prepared? ==> NamesSafe(attrs) && |r.attrs| == |attrs|
    ensures r.Prepared? ==> forall j :: 0 <= j < |attrs| ==> r.attrs[j].name == attrs[j].name
    ensures r.Prepared? ==> forall j :: 0 <= j < |attrs| ==> SafeValue(r.attrs[j].value)
    ensures r.Prepared? ==> forall j :: 0 <= j < |attrs| && attrs[j].name != "href" ==>
                              r.attrs[j] == Attr(attrs[j].name, TransformValue(attrs[j].value))
    ensures r.Prepared? && FirstIndex(attrs, "href", 0).None? ==> r.attrs == TransformValues(attrs)
    ensures r.Prepared? && FirstIndex(attrs, "href", 0).Some? ==>
              var i := FirstIndex(attrs, "href", 0).value;
              var v := attrs[i].value;
              r.attrs[i].value == (if v.Bool? then v else Str(StripScheme(Escape(ToS(v)))))
    ensures r == Rejected(HrefNotString) <==>
              && NamesSafe(attrs) && FirstIndex(attrs, "href", 0).Some?
              && attrs[FirstIndex(attrs, "href", 0).value].value == Bool(true)
  {
    if !NamesSafe(attrs) then Rejected(UnsafeAttributeName)
    else
      var t := TransformValues(attrs);
      FirstIndexSameNames(attrs, t, "href", 0);
      var r := SubHref(t);
      if r.Prepared? then
        PreparedValuesSafe(t, r.attrs);
        r
      else r
  }

  /** `FirstIndex` looks at names only. */
  lemma {:induction false} FirstIndexSameNames(a: seq<Attr>, b: seq<Attr>, name: string, from: nat)
    requires |a| == |b| && from <= |a|
    requires forall j :: 0 <= j < |a| ==> a[j].name == b[j].name
    ensures FirstIndex(a, name, from) == FirstIndex(b, name, from)
    decreases |a| - from
  {
    if from < |a| {
      FirstIndexSameNames(a, b, name, from + 1);
    }
  }

  /** The strip keeps every transformed value safe. */
  lemma PreparedValuesSafe(t: seq<Attr>, u: seq<Attr>)
    requires forall j :: 0 <= j < |t| ==> SafeValue(t[j].value)
    requires SubHref(t) == Prepared(u)
    ensures forall j :: 0 <= j < |u| ==> SafeValue(u[j].value)
  {
    match FirstIndex(t, "href", 0)
    case None =>
    case Some(i) =>
      var v := t[i].value;
      if Truthy(v) && v.Str? {
        StripKeepsNoMarkup(v.s);
        assert u == t[i := Attr(t[i].name, Str(StripScheme(v.s)))];
      }
  }

  // ------------------------------------------------------------- fragment

  /** What the `each` loop appends for one transformed attribute. */
  function Piece(a: Attr, tags: Tags): (r: string)
    ensures !Truthy(a.value) ==> r == []
    ensures Truthy(a.value) ==> StartsWith(r, tags.space + a.name)
  {
    if !Truthy(a.value) then []
    else if a.value == Bool(true) then
      StartsWithConcat(tags.space + a.name, []);
      assert tags.space + a.name + [] == tags.space + a.name;
      tags.space + a.name
    else
      var rest := tags.equalsQuote + ToS(a.value) + tags.quote;
      StartsWithConcat(tags.space + a.name, rest);
      assert tags.space + a.name + rest == tags.space + a.name + tags.equalsQuote + ToS(a.value) + tags.quote;
      tags.space + a.name + tags.equalsQuote + ToS(a.value) + tags.quote
  }

  /** The pieces of all attributes, in insertion order. */
  function Fragment(t: seq<Attr>, tags: Tags): string
    decreases |t|
  {
    if t == [] then [] else Fragment(t[..|t| - 1], tags) + Piece(t[|t| - 1], tags)
  }

  /** The whole effect of `_attributes` on a cache `entries` whose keys are
      `key` (Ruby's `Hash#hash`): a hit appends the stored text verbatim; a
      miss validates and serializes, and only a first render stores the
      fragment, under the key of the TRANSFORMED attributes. */
  function AttributesStep(entries: map<int, string>, key: seq<Attr> -> int,
                          firstRender: bool, tags: Tags, attrs: seq<Attr>): (r: Effect)
    ensures r.outcome.Raised? ==> key(attrs) !in entries && Prepare(attrs).Rejected?
                                  && r.outcome == Raised(Prepare(attrs).error)
    ensures r.entries == entries
            || (&& firstRender && key(attrs) !in entries && r.outcome == Completed
                && Prepare(attrs).Prepared? && r.entries == entries[key(Prepare(attrs).attrs) := r.appended])
  {
    var k := key(attrs);
    if k in entries then Effect(Completed, entries[k], entries)
    else
      match Prepare(attrs)
      case Rejected(e) => Effect(Raised(e), [], entries)
      case Prepared(t) =>
        var f := Fragment(t, tags);
        Effect(Completed, f, if firstRender then entries[key(t) := f] else entries)
  }

  // --------------------------------------------------------------- lemmas

  lemma {:induction false} FragmentConcat(a: seq<Attr>, b: seq<Attr>, tags: Tags)
    ensures Fragment(a + b, tags) == Fragment(a, tags) + Fragment(b, tags)
    decreases |b|
  {
    if b == [] {
      assert a + b == a;
    } else {
      var b' := b[..|b| - 1];
      var x := Piece(b[|b| - 1], tags);
      assert (a + b)[..|a + b| - 1] == a + b';
      assert (a + b)[|a + b| - 1] == b[|b| - 1];
      assert Fragment(a + b, tags) == Fragment(a + b', tags) + x;
      FragmentConcat(a, b', tags);
      assert Fragment(b, tags) == Fragment(b', tags) + x;
    }
  }

  lemma FragmentPrefix(t: seq<Attr>, i: nat, tags: Tags)
    requires i < |t|
    ensures Fragment(t[..i + 1], tags) == Fragment(t[..i], tags) + Piece(t[i], tags)
  {
    assert t[..i + 1][..i] == t[..i];
  }

  /** A `false` attribute contributes nothing, wherever it stands. */
  lemma FragmentSkipsFalse(a: seq<Attr>, name: string, b: seq<Attr>, tags: Tags)
    ensures Fragment(a + [Attr(name, Bool(false))] + b, tags) == Fragment(a + b, tags)
  {
    var f := [Attr(name, Bool(false))];
    assert Fragment(f, tags) == [] by {
      assert f[..0] == [];
    }
    assert Fragment(a + f, tags) == Fragment(a, tags) by {
      FragmentConcat(a, f, tags);
      assert Fragment(a, tags) + [] == Fragment(a, tags);
    }
    assert Fragment(a + f + b, tags) == Fragment(a, tags) + Fragment(b, tags) by {
      FragmentConcat(a + f, b, tags);
    }
    FragmentConcat(a, b, tags);
  }

  /** The format of one attribute, after transformation: `true` gives the
      bare name, `nil` gives `name=""`, anything else its escaped text. */
  lemma PieceFormat(name: string, v: Value, tags: Tags)
    ensures v == Bool(false) ==> Piece(Attr(name, TransformValue(v)), tags) == []
    ensures v == Bool(true) ==> Piece(Attr(name, TransformValue(v)), tags) == tags.space + name
    ensures !v.Bool? ==> Piece(Attr(name, TransformValue(v)), tags)
                         == tags.space + name + tags.equalsQuote + Escape(ToS(v)) + tags.quote
    ensures v == Nil ==> Piece(Attr(name, TransformValue(v)), tags)
                         == tags.space + name + tags.equalsQuote + tags.quote
  {
  }

  /** Without a match at 0 the text does not begin with the scheme. */
  lemma NoMatchNoScheme(s: string)
    requires MatchLen(s, 0) == 0
    ensures !SchemeAt(s, 0)
  {
  }

  lemma SchemeAtSuffix(s: string, n: nat)
    requires n <= |s|
    ensures SchemeAt(s[n..], 0) == SchemeAt(s, n)
  {
    if n + |Scheme| <= |s| {
      assert s[n..][0..|Scheme|] == s[n..n + |Scheme|];
    }
  }

  /** What is kept in front of a match at a later line start cannot begin
      with the scheme. */
  lemma KeptPrefixNoScheme(s: string, p: nat, rest: string)
    requires 0 < p <= |s| && s[p - 1] == '\n' && !SchemeAt(s, 0)
    ensures !SchemeAt(s[..p] + rest, 0)
  {
    var r := s[..p] + rest;
    if p >= |Scheme| {
      assert r[..|Scheme|] == s[..|Scheme|];
    } else if |r| >= |Scheme| {
      assert r[..|Scheme|][p - 1] == '\n';
    }
  }

  /** The strip leaves a text that does not itself begin with `javascript:`. */
  lemma StrippedDoesNotStartWithScheme(s: string)
    ensures !SchemeAt(StripScheme(s), 0)
  {
    match FirstMatch(s, 0)
    case None =>
      assert StripScheme(s) == s;
      NoMatchNoScheme(s);
    case Some(p) =>
      StripRemovesOneMatch(s, p);
      var n := MatchLen(s, p);
      var rest := s[p + n..];
      if p == 0 {
        MatchShape(s, 0);
        assert StripScheme(s) == rest by { assert s[..0] == []; }
        SchemeAtSuffix(s, n);
      } else {
        assert !MatchesAt(s, 0);
        NoMatchNoScheme(s);
        KeptPrefixNoScheme(s, p, rest);
      }
  }

  lemma StripRepeatedScheme()
    ensures StripScheme("javascript:javascript:alert(1)") == "alert(1)"
  {
    var s := "javascript:javascript:alert(1)";
    assert SpaceRun(s, 0) == 0;
    assert s[0..11] == Scheme;
    assert s[11..22] == Scheme;
    assert !SchemeAt(s, 22);
    assert SchemeRun(s, 0) == 22;
    assert FirstMatch(s, 0) == Some(0);
    assert s[22..] == "alert(1)";
  }

  /** Only the first match goes: a second strip can remove more. */
  lemma StripRemovesFirstMatchOnly()
    ensures StripScheme("javascript: javascript:x") == " javascript:x"
  {
    var s := "javascript: javascript:x";
    assert SpaceRun(s, 0) == 0;
    assert s[0..11] == Scheme;
    assert s[11] == ' ';
    assert !SchemeAt(s, 11);
    assert SchemeRun(s, 0) == 11;
    assert MatchLen(s, 0) == 11;
    assert MatchesAt(s, 0);
    assert FirstMatch(s, 0) == Some(0);
    assert s[11..] == " javascript:x";
  }

  /** ... so the strip is not idempotent. */
  lemma StripOfStripped()
    ensures StripScheme(" javascript:x") == "x"
  {
    var u := " javascript:x";
    assert u[1] == 'j';
    assert SpaceRun(u, 1) == 0;
    assert SpaceRun(u, 0) == 1;
    assert u[1..12] == Scheme;
    assert !SchemeAt(u, 12);
    assert FirstMatch(u, 0) == Some(0);
    assert u[12..] == "x";
  }

  /** `^` is a line start: a scheme after a line feed is removed too. */
  lemma StripAtLineStart()
    ensures StripScheme("x\njavascript:y") == "x\ny"
  {
    var s := "x\njavascript:y";
    assert SpaceRun(s, 0) == 0 && !SchemeAt(s, 0);
    assert !LineStart(s, 1);
    assert SpaceRun(s, 2) == 0;
    assert s[2..13] == Scheme;
    assert !SchemeAt(s, 13);
    assert FirstMatch(s, 0) == Some(2);
    assert s[..2] + s[13..] == "x\ny";
  }

  // ------------------------------------------- one call of `_attributes`

  /** A hit appends the stored text verbatim, validates nothing (even an
      unsafe name goes through) and leaves the cache as it was. */
  lemma CacheHitVerbatim(entries: map<int, string>, key: seq<Attr> -> int,
                         firstRender: bool, tags: Tags, attrs: seq<Attr>)
    requires key(attrs) in entries
    ensures AttributesStep(entries, key, firstRender, tags, attrs)
            == Effect(Completed, entries[key(attrs)], entries)
  {
  }

  /** On a miss, a first render and a later render raise alike and append
      the same bytes, the fragment of the prepared attributes; only a first
      render that completes writes the cache, storing exactly what it
      appended under the key of the transformed attributes. */
  lemma MissSameBytesEitherRender(entries: map<int, string>, key: seq<Attr> -> int,
                                  tags: Tags, attrs: seq<Attr>)
    requires key(attrs) !in entries
    ensures var first := AttributesStep(entries, key, true, tags, attrs);
            var later := AttributesStep(entries, key, false, tags, attrs);
            && first.outcome == later.outcome
            && first.appended == later.appended
            && later.entries == entries
            && (Prepare(attrs).Rejected? ==>
                  first.outcome == Raised(Prepare(attrs).error) && first.appended == [] && first.entries == entries)
            && (Prepare(attrs).Prepared? ==>
                  && first.outcome == Completed
                  && first.appended == Fragment(Prepare(attrs).attrs, tags)
                  && first.entries == entries[key(Prepare(attrs).attrs) := first.appended])
  {
  }

  /** The common call: on a miss, safe names and no `href` complete, and
      the text appended is the fragment of the transformed attributes; a
      first render stores it under their key. */
  lemma SafeNoHrefCompletes(entries: map<int, string>, key: seq<Attr> -> int,
                            firstRender: bool, tags: Tags, attrs: seq<Attr>)
    requires key(attrs) !in entries && NamesSafe(attrs)
    requires FirstIndex(attrs, "href", 0).None?
    ensures var e := AttributesStep(entries, key, firstRender, tags, attrs);
            && e.outcome == Completed
            && e.appended == Fragment(TransformValues(attrs), tags)
            && e.entries == (if firstRender then entries[key(TransformValues(attrs)) := e.appended] else entries)
  {
    FirstIndexSameNames(attrs, TransformValues(attrs), "href", 0);
  }

  /** Serializing the same attributes twice in a row gives the same text:
      a completed miss either leaves the cache alone, so the second call
      misses and serializes alike, or stores its fragment, which the second
      call then replays; the first call's key and the stored key may
      differ, and another first render in between can change what is
      replayed (`StaleHitAfterTransform`). */
  lemma RepeatSameOutput(entries: map<int, string>, key: seq<Attr> -> int,
                         firstRender: bool, laterRender: bool, tags: Tags, attrs: seq<Attr>)
    ensures var e1 := AttributesStep(entries, key, firstRender, tags, attrs);
            var e2 := AttributesStep(e1.entries, key, laterRender, tags, attrs);
            e1.outcome == Completed ==> e2.outcome == Completed && e2.appended == e1.appended
  {
  }

  /** An unsafe name on a miss raises before anything is appended or cached. */
  lemma UnsafeNameRaises(entries: map<int, string>, key: seq<Attr> -> int,
                         firstRender: bool, tags: Tags, attrs: seq<Attr>, i: nat)
    requires key(attrs) !in entries
    requires i < |attrs| && !SafeName(attrs[i].name)
    ensures AttributesStep(entries, key, firstRender, tags, attrs)
            == Effect(Raised(UnsafeAttributeName), [], entries)
  {
  }

  /** A call that raises appends nothing and leaves the cache alone. */
  lemma RaisedAppendsNothing(entries: map<int, string>, key: seq<Attr> -> int,
                             firstRender: bool, tags: Tags, attrs: seq<Attr>)
    ensures var e := AttributesStep(entries, key, firstRender, tags, attrs);
            e.outcome.Raised? ==> e.appended == [] && e.entries == entries
  {
  }

  /** The cache only grows: no key is ever removed. */
  lemma CacheKeysGrow(entries: map<int, string>, key: seq<Attr> -> int,
                      firstRender: bool, tags: Tags, attrs: seq<Attr>)
    ensures entries.Keys <= AttributesStep(entries, key, firstRender, tags, attrs).entries.Keys
  {
  }

  /** `nil` is not skipped: on a miss it is emitted as `name=""`. */
  lemma NilGivesEmptyValue(entries: map<int, string>, key: seq<Attr> -> int,
                           firstRender: bool, tags: Tags, name: string)
    requires key([Attr(name, Nil)]) !in entries && SafeName(name)
    ensures AttributesStep(entries, key, firstRender, tags, [Attr(name, Nil)])
            .appended == tags.space + name + tags.equalsQuote + tags.quote
  {
    var t := TransformValues([Attr(name, Nil)]);
    assert t == [Attr(name, Str(""))];
    assert StripScheme("") == "" by { assert FirstMatch("", 0) == None; }
    assert SubHref(t) == Prepared(t);
    assert t[..0] == [];
    assert Fragment(t, tags) == Piece(t[0], tags);
    assert ToS(Str("")) == [];
    assert tags.space + name + tags.equalsQuote + [] == tags.space + name + tags.equalsQuote;
  }

  /** `href: true` has no `sub!`: the call raises NoMethodError. */
  lemma HrefTrueRaises(entries: map<int, string>, key: seq<Attr> -> int,
                       firstRender: bool, tags: Tags, before: seq<Attr>, after: seq<Attr>)
    requires key(before + [Attr("href", Bool(true))] + after) !in entries
    requires NamesSafe(before + [Attr("href", Bool(true))] + after)
    requires forall j :: 0 <= j < |before| ==> before[j].name != "href"
    ensures AttributesStep(entries, key, firstRender, tags, before + [Attr("href", Bool(true))] + after)
            == Effect(Raised(HrefNotString), [], entries)
  {
    var attrs := before + [Attr("href", Bool(true))] + after;
    var t := TransformValues(attrs);
    assert t[|before|] == Attr("href", Bool(true));
    assert FirstIndex(t, "href", 0) == Some(|before|);
  }

  lemma TransformValuesConcat(a: seq<Attr>, b: seq<Attr>)
    ensures TransformValues(a + b) == TransformValues(a) + TransformValues(b)
  {
    var l := TransformValues(a + b);
    var r := TransformValues(a) + TransformValues(b);
    assert |l| == |r|;
    forall i | 0 <= i < |l|
      ensures l[i] == r[i]
    {
      if i < |a| {
        assert (a + b)[i] == a[i];
      } else {
        assert (a + b)[i] == b[i - |a|];
      }
    }
  }

  /** `href: false` is falsy, so it is neither stripped nor emitted: the
      call completes and appends just the other attributes' pieces. */
  lemma HrefFalseLeftAlone(entries: map<int, string>, key: seq<Attr> -> int,
                           firstRender: bool, tags: Tags, before: seq<Attr>, after: seq<Attr>)
    requires key(before + [Attr("href", Bool(false))] + after) !in entries
    requires NamesSafe(before + [Attr("href", Bool(false))] + after)
    requires forall j :: 0 <= j < |before| ==> before[j].name != "href"
    ensures var attrs := before + [Attr("href", Bool(false))] + after;
            var e := AttributesStep(entries, key, firstRender, tags, attrs);
            && e.outcome == Completed
            && e.appended == Fragment(TransformValues(before) + TransformValues(after), tags)
            && e.entries == (if firstRender then entries[key(TransformValues(attrs)) := e.appended] else entries)
  {
    var h := [Attr("href", Bool(false))];
    var attrs := before + h + after;
    var tb := TransformValues(before);
    var ta := TransformValues(after);
    TransformValuesConcat(before + h, after);
    TransformValuesConcat(before, h);
    assert TransformValues(h) == h;
    var t := TransformValues(attrs);
    assert t == tb + h + ta;
    assert t[|before|] == Attr("href", Bool(false));
    assert FirstIndex(t, "href", 0) == Some(|before|);
    assert Prepare(attrs) == Prepared(t);
    MissAppendsFragment(entries, key, firstRender, tags, attrs, t);
    FragmentSkipsFalse(tb, "href", ta, tags);
  }

  /** Any non-boolean href (a String, `nil`, a Symbol, ...) is escaped, then
      stripped, and emitted in its place; the call completes. */
  lemma HrefTextStripped(entries: map<int, string>, key: seq<Attr> -> int,
                         firstRender: bool, tags: Tags, before: seq<Attr>, v: Value, after: seq<Attr>)
    requires !v.Bool?
    requires key(before + [Attr("href", v)] + after) !in entries
    requires NamesSafe(before + [Attr("href", v)] + after)
    requires forall j :: 0 <= j < |before| ==> before[j].name != "href"
    ensures var attrs := before + [Attr("href", v)] + after;
            var e := AttributesStep(entries, key, firstRender, tags, attrs);
            var u := TransformValues(before) + [Attr("href", Str(StripScheme(Escape(ToS(v)))))] + TransformValues(after);
            && e.outcome == Completed
            && e.appended == Fragment(u, tags)
            && e.entries == (if firstRender then entries[key(u) := e.appended] else entries)
  {
    PrepareHrefText(before, v, after);
    MissAppendsFragment(entries, key, firstRender, tags, before + [Attr("href", v)] + after,
                        TransformValues(before) + [Attr("href", Str(StripScheme(Escape(ToS(v)))))] + TransformValues(after));
  }

  lemma PrepareHrefText(before: seq<Attr>, v: Value, after: seq<Attr>)
    requires !v.Bool?
    requires NamesSafe(before + [Attr("href", v)] + after)
    requires forall j :: 0 <= j < |before| ==> before[j].name != "href"
    ensures Prepare(before + [Attr("href", v)] + after)
            == Prepared(TransformValues(before) + [Attr("href", Str(StripScheme(Escape(ToS(v)))))] + TransformValues(after))
  {
    var attrs := before + [Attr("href", v)] + after;
    var tb := TransformValues(before);
    var ta := TransformValues(after);
    var e := Escape(ToS(v));
    var t := tb + [Attr("href", Str(e))] + ta;
    assert TransformValues(attrs) == t by {
      var h := [Attr("href", v)];
      TransformAround(before, h, after);
      assert TransformValues(h) == [Attr("href", Str(e))];
    }
    assert forall j :: 0 <= j < |tb| ==> tb[j].name != "href" by {
      assert forall j :: 0 <= j < |tb| ==> tb[j].name == before[j].name;
    }
    SubHrefAt(tb, e, ta);
    PrepareSafeNames(attrs, t, tb + [Attr("href", Str(StripScheme(e)))] + ta);
  }

  /** A text href after attributes of other names is replaced by its strip. */
  lemma SubHrefAt(tb: seq<Attr>, e: string, ta: seq<Attr>)
    requires forall j :: 0 <= j < |tb| ==> tb[j].name != "href"
    ensures SubHref(tb + [Attr("href", Str(e))] + ta) == Prepared(tb + [Attr("href", Str(StripScheme(e)))] + ta)
  {
    var t := tb + [Attr("href", Str(e))] + ta;
    var i := |tb|;
    assert t[i] == Attr("href", Str(e));
    assert forall j :: 0 <= j < i ==> t[j].name != "href" by {
      assert forall j :: 0 <= j < i ==> t[j] == tb[j];
    }
    FirstIndexAt(t, "href", i);
    SubHrefText(t, i);
    assert t[i := Attr("href", Str(StripScheme(e)))] == tb + [Attr("href", Str(StripScheme(e)))] + ta;
  }

  /** With safe names, preparing is the href strip of the transformed list. */
  lemma PrepareSafeNames(attrs: seq<Attr>, t: seq<Attr>, u: seq<Attr>)
    requires NamesSafe(attrs) && TransformValues(attrs) == t && SubHref(t) == Prepared(u)
    ensures Prepare(attrs) == Prepared(u)
  {
  }

  /** The first attribute with a name is found where it stands. */
  lemma FirstIndexAt(t: seq<Attr>, name: string, i: nat)
    requires i < |t| && t[i].name == name
    requires forall j :: 0 <= j < i ==> t[j].name != name
    ensures FirstIndex(t, name, 0) == Some(i)
  {
  }

  /** A text href is replaced by its strip. */
  lemma SubHrefText(t: seq<Attr>, i: nat)
    requires FirstIndex(t, "href", 0) == Some(i) && t[i].value.Str?
    ensures SubHref(t) == Prepared(t[i := Attr(t[i].name, Str(StripScheme(t[i].value.s)))])
  {
  }

  lemma TransformAround(before: seq<Attr>, h: seq<Attr>, after: seq<Attr>)
    ensures TransformValues(before + h + after) == TransformValues(before) + TransformValues(h) + TransformValues(after)
  {
    TransformValuesConcat(before + h, after);
    TransformValuesConcat(before, h);
  }

  /** A repeated scheme in an href is removed, the rest kept. */
  lemma HrefSchemeStripped(entries: map<int, string>, key: seq<Attr> -> int,
                           firstRender: bool, tags: Tags)
    requires key([Attr("href", Str("javascript:javascript:alert(1)"))]) !in entries
    ensures AttributesStep(entries, key, firstRender, tags, [Attr("href", Str("javascript:javascript:alert(1)"))])
            .appended == tags.space + "href" + tags.equalsQuote + "alert(1)" + tags.quote
  {
    PrepareHrefExample();
    MissAppendsFragment(entries, key, firstRender, tags,
                        [Attr("href", Str("javascript:javascript:alert(1)"))], [Attr("href", Str("alert(1)"))]);
    SingleFragment(Attr("href", Str("alert(1)")), tags);
    TextPiece("href", "alert(1)", tags);
  }

  lemma MissAppendsFragment(entries: map<int, string>, key: seq<Attr> -> int,
                            firstRender: bool, tags: Tags, attrs: seq<Attr>, u: seq<Attr>)
    requires key(attrs) !in entries && Prepare(attrs) == Prepared(u)
    ensures AttributesStep(entries, key, firstRender, tags, attrs).appended == Fragment(u, tags)
  {
  }

  lemma SingleFragment(a: Attr, tags: Tags)
    ensures Fragment([a], tags) == Piece(a, tags)
  {
    assert [a][..0] == [];
  }

  lemma PrepareHrefExample()
    ensures Prepare([Attr("href", Str("javascript:javascript:alert(1)"))]) == Prepared([Attr("href", Str("alert(1)"))])
  {
    var t := [Attr("href", Str("javascript:javascript:alert(1)"))];
    assert NamesSafe(t) by { assert SafeName("href"); }
    assert Prepare(t) == SubHref(TransformValues(t));
    TransformHrefExample();
    SubHrefExample();
  }

  lemma TransformHrefExample()
    ensures TransformValues([Attr("href", Str("javascript:javascript:alert(1)"))])
            == [Attr("href", Str("javascript:javascript:alert(1)"))]
  {
    EscapeExampleHref();
  }

  lemma SubHrefExample()
    ensures SubHref([Attr("href", Str("javascript:javascript:alert(1)"))]) == Prepared([Attr("href", Str("alert(1)"))])
  {
    var t := [Attr("href", Str("javascript:javascript:alert(1)"))];
    assert FirstIndex(t, "href", 0) == Some(0);
    StripRepeatedScheme();
  }

  lemma EscapeExampleHref()
    ensures Escape("javascript:javascript:alert(1)") == "javascript:javascript:alert(1)"
  {
    var v := "javascript:javascript:alert(1)";
    forall i | 0 <= i < |v| ensures !Reserved(v[i]) {
    }
    EscapeSafe(v);
  }

  /** The lookup key is that of the attributes as given, the store key that
      of the transformed ones. So after a first render of `title: "<"`, the
      attributes `title: "&lt;"` (equal to the transformed ones) hit that
      entry and get `title="&lt;"`, where serializing them gives
      `title="&amp;lt;"`. */
  lemma StaleHitAfterTransform(entries: map<int, string>, key: seq<Attr> -> int, tags: Tags)
    requires key([Attr("title", Str("<"))]) !in entries
    ensures var y := [Attr("title", Str("<"))];
            var x := [Attr("title", Str("&lt;"))];
            var first := AttributesStep(entries, key, true, tags, y);
            var second := AttributesStep(first.entries, key, false, tags, x);
            var uncached := AttributesStep(map[], key, false, tags, x);
            && first.appended == tags.space + "title" + tags.equalsQuote + "&lt;" + tags.quote
            && second.appended == first.appended
            && uncached.appended == tags.space + "title" + tags.equalsQuote + "&amp;lt;" + tags.quote
            && second.appended != uncached.appended
  {
    var y := [Attr("title", Str("<"))];
    var x := [Attr("title", Str("&lt;"))];
    var x' := [Attr("title", Str("&amp;lt;"))];
    PrepareTitleExamples();
    MissAppendsFragment(entries, key, true, tags, y, x);
    SingleFragment(x[0], tags);
    TextPiece("title", "&lt;", tags);
    var first := AttributesStep(entries, key, true, tags, y);
    assert first.entries == entries[key(x) := first.appended];
    CacheHitVerbatim(first.entries, key, false, tags, x);
    MissAppendsFragment(map[], key, false, tags, x, x');
    SingleFragment(x'[0], tags);
    TextPiece("title", "&amp;lt;", tags);
    var uncached := AttributesStep(map[], key, false, tags, x);
    assert |first.appended| != |uncached.appended|;
  }

  lemma PrepareTitleExamples()
    ensures Prepare([Attr("title", Str("<"))]) == Prepared([Attr("title", Str("&lt;"))])
    ensures Prepare([Attr("title", Str("&lt;"))]) == Prepared([Attr("title", Str("&amp;lt;"))])
  {
    var y := [Attr("title", Str("<"))];
    var x := [Attr("title", Str("&lt;"))];
    var x' := [Attr("title", Str("&amp;lt;"))];
    EscapeTitleExamples();
    assert SafeName("title");
    assert TransformValues(y) == x;
    assert FirstIndex(x, "href", 0) == None;
    assert TransformValues(x) == x';
    assert FirstIndex(x', "href", 0) == None;
  }

  lemma EscapeTitleExamples()
    ensures Escape("<") == "&lt;" && Escape("&lt;") == "&amp;lt;"
  {
    assert Escape(";") == ";";
    assert Escape("t;") == "t;";
    assert Escape("lt;") == "lt;";
  }

  /** A text value, already transformed, is emitted between the quotes as it is. */
  lemma TextPiece(name: string, text: string, tags: Tags)
    ensures Piece(Attr(name, Str(text)), tags) == tags.space + name + tags.equalsQuote + text + tags.quote
  {
  }
}
