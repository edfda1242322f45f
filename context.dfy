/** The emission protocol of `Phlex::Context`: every operation appends to one
    output buffer, the target. Elements carry attributes, which go through
    the serializer and the process-wide attribute cache. */
module PhlexContext {
  import opened RubyValues
  import opened Escaping
  import opened AttributeSerializer

  /** A block as the protocol sees it: the text it appends to the target
      while it runs, and what it returns (`Some(s)` for a String, `None`
      for any other object, `nil` included). */
  datatype Block = Block(appended: string, returned: Option<string>)

  // ------------------------------------------------- specification

  /** The `content` rule: the block's own output; and when it appended
      nothing and returned a String, that String as escaped text. */
  function ContentOutput(block: Option<Block>): (r: string)
    ensures block.None? ==> r == []
    ensures block.Some? ==> r == block.value.appended || (block.value.appended == [] && NoMarkup(r))
  {
    match block
    case None => []
    case Some(b) =>
      if b.appended == [] && b.returned.Some? then Escape(b.returned.value) else b.appended
  }

  /** The body of a standard element: the block through `content`, or
      else the explicit content as text. */
  function Body(content: Option<string>, block: Option<Block>): string {
    if block.Some? then ContentOutput(block)
    else if content.Some? then Escape(content.value)
    else []
  }

  /** `_attributes(kwargs) if kwargs.length > 0`. */
  function AttributesPart(entries: map<int, string>, key: seq<Attr> -> int,
                          firstRender: bool, tags: Tags, attrs: seq<Attr>): Effect
  {
    if |attrs| == 0 then Effect(Completed, [], entries)
    else AttributesStep(entries, key, firstRender, tags, attrs)
  }

  /** The effect of `_standard_element`. */
  function StandardElementStep(entries: map<int, string>, key: seq<Attr> -> int,
                               firstRender: bool, tags: Tags, name: string,
                               content: Option<string>, attrs: seq<Attr>,
                               block: Option<Block>): (r: Effect)
    ensures r.outcome.Raised? ==> r.entries == entries
    ensures r.outcome.Raised? ==> r.appended == (if content.Some? && block.Some? then [] else tags.left + name)
    ensures |attrs| == 0 ==> r.entries == entries && (r.outcome.Raised? <==> content.Some? && block.Some?)
  {
    if content.Some? && block.Some? then Effect(Raised(ContentAndBlock), [], entries)
    else
      var a := AttributesPart(entries, key, firstRender, tags, attrs);
      if a.outcome.Raised? then Effect(a.outcome, tags.left + name, a.entries)
      else Effect(Completed,
                  tags.left + name + a.appended + tags.right
                  + Body(content, block)
                  + tags.closeLeft + name + tags.right,
                  a.entries)
  }

  /** The effect of `_void_element`. */
  function VoidElementStep(entries: map<int, string>, key: seq<Attr> -> int,
                           firstRender: bool, tags: Tags, name: string,
                           attrs: seq<Attr>): (r: Effect)
    ensures r.outcome.Raised? ==> r.entries == entries && r.appended == tags.left + name
    ensures |attrs| == 0 ==> r == Effect(Completed, tags.left + name + tags.closeVoidRight, entries)
  {
    var a := AttributesPart(entries, key, firstRender, tags, attrs);
    if a.outcome.Raised? then Effect(a.outcome, tags.left + name, a.entries)
    else Effect(Completed, tags.left + name + a.appended + tags.closeVoidRight, a.entries)
  }

  // ------------------------------------------------------ lemmas

  /** Whether the block wrote decides: if it appended anything, that is all
      that is added; if it appended nothing, its String result is added as
      escaped text, and a non-String result adds nothing. */
  lemma ContentRule(b: Block)
    ensures b.appended != [] ==> ContentOutput(Some(b)) == b.appended
    ensures b.appended == [] && b.returned.Some? ==> ContentOutput(Some(b)) == Escape(b.returned.value)
    ensures b.appended == [] && b.returned.None? ==> ContentOutput(Some(b)) == []
  {
  }

  /** Explicit content together with a block raises before anything is
      appended; `""` counts as content, since it is truthy. */
  lemma ContentAndBlockRaiseFirst(entries: map<int, string>, key: seq<Attr> -> int,
                                  firstRender: bool, tags: Tags, name: string,
                                  content: string, attrs: seq<Attr>, block: Block)
    ensures StandardElementStep(entries, key, firstRender, tags, name, Some(content), attrs, Some(block))
            == Effect(Raised(ContentAndBlock), [], entries)
    ensures StandardElementStep(entries, key, firstRender, tags, name, Some(""), attrs, Some(block)).outcome.Raised?
  {
  }

  /** A completed standard element is the open tag, the fragment (empty
      without attributes), the body and the close tag. */
  lemma StandardElementLayout(entries: map<int, string>, key: seq<Attr> -> int,
                              firstRender: bool, tags: Tags, name: string,
                              content: Option<string>, attrs: seq<Attr>,
                              block: Option<Block>)
    requires !(content.Some? && block.Some?)
    requires |attrs| == 0 || AttributesStep(entries, key, firstRender, tags, attrs).outcome == Completed
    ensures var e := StandardElementStep(entries, key, firstRender, tags, name, content, attrs, block);
            var frag := if |attrs| == 0 then [] else AttributesStep(entries, key, firstRender, tags, attrs).appended;
            && e.outcome == Completed
            && e.appended == tags.left + name + frag + tags.right + Body(content, block) + tags.closeLeft + name + tags.right
            && (block.Some? ==> Body(content, block) == ContentOutput(block))
            && (block.None? && content.Some? ==> Body(content, block) == Escape(content.value))
            && (block.None? && content.None? ==> Body(content, block) == [])
  {
  }

  /** A completed void element is the open tag, the fragment and the
      self-closing terminator, with no body. */
  lemma VoidElementLayout(entries: map<int, string>, key: seq<Attr> -> int,
                          firstRender: bool, tags: Tags, name: string, attrs: seq<Attr>)
    requires |attrs| == 0 || AttributesStep(entries, key, firstRender, tags, attrs).outcome == Completed
    ensures var e := VoidElementStep(entries, key, firstRender, tags, name, attrs);
            var frag := if |attrs| == 0 then [] else AttributesStep(entries, key, firstRender, tags, attrs).appended;
            e.outcome == Completed && e.appended == tags.left + name + frag + tags.closeVoidRight
  {
  }

  /** An unsafe attribute name on a cache miss raises with `<name` already
      appended and no attribute text, and the cache unchanged; for a standard
      element and for a void one alike. */
  lemma UnsafeNameLeavesOpenTag(entries: map<int, string>, key: seq<Attr> -> int,
                                firstRender: bool, tags: Tags, name: string,
                                content: Option<string>, attrs: seq<Attr>,
                                block: Option<Block>, i: nat)
    requires !(content.Some? && block.Some?)
    requires key(attrs) !in entries && i < |attrs| && !SafeName(attrs[i].name)
    ensures StandardElementStep(entries, key, firstRender, tags, name, content, attrs, block)
            == Effect(Raised(UnsafeAttributeName), tags.left + name, entries)
    ensures VoidElementStep(entries, key, firstRender, tags, name, attrs)
            == Effect(Raised(UnsafeAttributeName), tags.left + name, entries)
  {
    UnsafeNameRaises(entries, key, firstRender, tags, attrs, i);
  }

  /** `href: true` on a cache miss raises NoMethodError with `<name`
      already appended and the cache unchanged, for a standard element and
      for a void one alike. */
  lemma HrefTrueLeavesOpenTag(entries: map<int, string>, key: seq<Attr> -> int,
                              firstRender: bool, tags: Tags, name: string,
                              content: Option<string>, block: Option<Block>,
                              before: seq<Attr>, after: seq<Attr>)
    requires !(content.Some? && block.Some?)
    requires key(before + [Attr("href", Bool(true))] + after) !in entries
    requires NamesSafe(before + [Attr("href", Bool(true))] + after)
    requires forall j :: 0 <= j < |before| ==> before[j].name != "href"
    ensures var attrs := before + [Attr("href", Bool(true))] + after;
            && StandardElementStep(entries, key, firstRender, tags, name, content, attrs, block)
               == Effect(Raised(HrefNotString), tags.left + name, entries)
            && VoidElementStep(entries, key, firstRender, tags, name, attrs)
               == Effect(Raised(HrefNotString), tags.left + name, entries)
  {
    HrefTrueRaises(entries, key, firstRender, tags, before, after);
  }

  lemma AppendAssoc(x: string, y: string, z: string)
    ensures (x + y) + z == x + (y + z)
  {
  }

  // ---------------------------------------------------- state

  /** `Phlex::ATTRIBUTE_CACHE`: serialized fragments by attribute-set key.
      `key` stands for Ruby's `Hash#hash`; nothing is assumed about it. */
  class AttributeCache {
    const key: seq<Attr> -> int
    var entries: map<int, string>

    constructor (key: seq<Attr> -> int)
      ensures this.key == key && entries == map[]
    {
      this.key := key;
      entries := map[];
    }
  }

  /** An object that includes `Phlex::Context`, during one render. */
  class Context {
    var target: string
    const tags: Tags
    const cache: AttributeCache
    /** `!self.class.rendered_at_least_once` */
    const firstRender: bool

    constructor (target: string, tags: Tags, cache: AttributeCache, firstRender: bool)
      ensures this.target == target && this.tags == tags
      ensures this.cache == cache && this.firstRender == firstRender
    {
      this.target := target;
      this.tags := tags;
      this.cache := cache;
      this.firstRender := firstRender;
    }

    /** `content`: runs the block, then emits its String result as text only
        if the target did not grow. */
    method Content(block: Option<Block>)
      modifies this
      ensures target == old(target) + ContentOutput(block)
    {
      var originalSize := |target|;
      var output: Option<string> := None;
      if block.Some? {
        target := target + block.value.appended;
        output := block.value.returned;
      }
      var sizeUnchanged := originalSize == |target|;
      assert sizeUnchanged ==> target == old(target);
      if sizeUnchanged && output.Some? {
        Text(output.value);
      }
    }

    /** `content { text("") }`. `text` answers the target itself (`<<`
        returns its receiver), so the block appends nothing and returns
        the target, and `content` appends an escaped copy of everything
        written before. */
    method ContentOfTextEmpty()
      modifies this
      ensures target == old(target) + Escape(old(target))
    {
      assert Escape("") == [];
      Content(Some(Block(Escape(""), Some(target))));
    }

    method Text(content: string)
      modifies this
      ensures target == old(target) + Escape(content)
    {
      target := target + Escape(content);
    }

    method Whitespace()
      modifies this
      ensures target == old(target) + " "
    {
      target := target + " ";
    }

    method Raw(content: string)
      modifies this
      ensures target == old(target) + content
    {
      target := target + content;
    }

    /** `template_tag`: a standard element named `template`. */
    method TemplateTag(content: Option<string>, attrs: seq<Attr>, block: Option<Block>)
      returns (outcome: Outcome)
      modifies this, cache
      ensures var e := StandardElementStep(old(cache.entries), cache.key, firstRender, tags,
                                           "template", content, attrs, block);
              outcome == e.outcome && target == old(target) + e.appended && cache.entries == e.entries
    {
      outcome := StandardElement("template", content, attrs, block);
    }

    /** `_standard_element`, with the element name passed explicitly. */
    method StandardElement(name: string, content: Option<string>, attrs: seq<Attr>,
                           block: Option<Block>)
      returns (outcome: Outcome)
      modifies this, cache
      ensures var e := StandardElementStep(old(cache.entries), cache.key, firstRender, tags,
                                           name, content, attrs, block);
              outcome == e.outcome && target == old(target) + e.appended && cache.entries == e.entries
    {
      if content.Some? && block.Some? {
        return Raised(ContentAndBlock);
      }
      ghost var a := AttributesPart(cache.entries, cache.key, firstRender, tags, attrs);
      ghost var start := target;
      target := target + tags.left + name;
      AppendAssoc(start, tags.left, name);
      if |attrs| > 0 {
        RaisedAppendsNothing(cache.entries, cache.key, firstRender, tags, attrs);
        outcome := Attributes(attrs);
        if outcome.Raised? {
          assert target == start + (tags.left + name) + [];
          return;
        }
      }
      assert target == start + (tags.left + name) + a.appended;
      AppendAssoc(start, tags.left + name, a.appended);
      target := target + tags.right;
      ghost var acc := tags.left + name + a.appended + tags.right;
      AppendAssoc(start, tags.left + name + a.appended, tags.right);
      if block.Some? {
        Content(block);
      } else if content.Some? {
        Text(content.value);
      }
      assert target == start + acc + Body(content, block);
      AppendAssoc(start, acc, Body(content, block));
      acc := acc + Body(content, block);
      target := target + tags.closeLeft + name + tags.right;
      AppendAssoc(start, acc, tags.closeLeft);
      AppendAssoc(start, acc + tags.closeLeft, name);
      AppendAssoc(start, acc + tags.closeLeft + name, tags.right);
      outcome := Completed;
    }

    /** `_void_element`, with the element name passed explicitly. It takes no
        block parameter, so a block given to it is never run. */
    method VoidElement(name: string, attrs: seq<Attr>, block: Option<Block>)
      returns (outcome: Outcome)
      modifies this, cache
      ensures var e := VoidElementStep(old(cache.entries), cache.key, firstRender, tags, name, attrs);
              outcome == e.outcome && target == old(target) + e.appended && cache.entries == e.entries
    {
      ghost var a := AttributesPart(cache.entries, cache.key, firstRender, tags, attrs);
      ghost var start := target;
      target := target + tags.left + name;
      AppendAssoc(start, tags.left, name);
      if |attrs| > 0 {
        RaisedAppendsNothing(cache.entries, cache.key, firstRender, tags, attrs);
        outcome := Attributes(attrs);
        if outcome.Raised? {
          assert target == start + (tags.left + name) + [];
          return;
        }
      }
      assert target == start + (tags.left + name) + a.appended;
      AppendAssoc(start, tags.left + name, a.appended);
      target := target + tags.closeVoidRight;
      AppendAssoc(start, tags.left + name + a.appended, tags.closeVoidRight);
      outcome := Completed;
    }

    /** `_attributes`. On a later render the fragment is written straight
        into the target; on a first render into a fresh buffer, which is
        then stored in the cache and appended. */
    method Attributes(attrs: seq<Attr>) returns (outcome: Outcome)
      modifies this, cache
      ensures var e := AttributesStep(old(cache.entries), cache.key, firstRender, tags, attrs);
              outcome == e.outcome && target == old(target) + e.appended && cache.entries == e.entries
    {
      var k := cache.key(attrs);
      assert target + [] == target;
      if k in cache.entries {
        target := target + cache.entries[k];
        return Completed;
      }

      // each_key: reject an unsafe name
      var safe := CheckNames(attrs);
      if !safe {
        return Raised(UnsafeAttributeName);
      }

      var t := TransformEach(attrs);

      // attributes[:href].sub!(...) if attributes[:href]
      var href := FirstIndex(t, "href", 0);
      if href.Some? && Truthy(t[href.value].value) {
        var v := t[href.value].value;
        if !v.Str? {
          return Raised(HrefNotString);
        }
        t := t[href.value := Attr(t[href.value].name, Str(StripScheme(v.s)))];
      }
      assert Prepare(attrs) == Prepared(t);

      // the buffer is a fresh string on a first render and the target itself otherwise
      var buffer := if firstRender then [] else target;
      buffer := EmitPieces(buffer, t, tags);
      assert [] + Fragment(t, tags) == Fragment(t, tags);
      if firstRender {
        cache.entries := cache.entries[cache.key(t) := buffer];
        target := target + buffer;
      } else {
        target := buffer;
      }
      outcome := Completed;
    }
  }

  /** The `each_key` loop: true when no name is unsafe. */
  method CheckNames(attrs: seq<Attr>) returns (safe: bool)
    ensures safe == NamesSafe(attrs)
  {
    var i := 0;
    while i < |attrs|
      invariant 0 <= i <= |attrs|
      invariant forall j :: 0 <= j < i ==> SafeName(attrs[j].name)
    {
      if !SafeName(attrs[i].name) {
        return false;
      }
      i := i + 1;
    }
    return true;
  }

  /** `transform_values!`, one entry at a time. */
  method TransformEach(attrs: seq<Attr>) returns (t: seq<Attr>)
    ensures t == TransformValues(attrs)
  {
    t := attrs;
    var i := 0;
    while i < |t|
      invariant 0 <= i <= |t| == |attrs|
      invariant forall j :: 0 <= j < i ==> t[j] == Attr(attrs[j].name, TransformValue(attrs[j].value))
      invariant forall j :: i <= j < |t| ==> t[j] == attrs[j]
    {
      t := t[i := Attr(t[i].name, TransformValue(t[i].value))];
      i := i + 1;
    }
  }

  /** The `each` loop: appends every attribute's piece to `buffer`. */
  method EmitPieces(buffer: string, t: seq<Attr>, tags: Tags) returns (out: string)
    ensures out == buffer + Fragment(t, tags)
  {
    out := buffer;
    var i := 0;
    while i < |t|
      invariant 0 <= i <= |t|
      invariant out == buffer + Fragment(t[..i], tags)
    {
      var a := t[i];
      var piece: string := [];
      if Truthy(a.value) {
        if a.value == Bool(true) {
          piece := tags.space + a.name;
        } else {
          piece := tags.space + a.name + tags.equalsQuote + ToS(a.value) + tags.quote;
        }
      }
      assert piece == Piece(a, tags);
      FragmentPrefix(t, i, tags);
      AppendAssoc(buffer, Fragment(t[..i], tags), piece);
      out := out + piece;
      i := i + 1;
    }
    assert t[..|t|] == t;
  }
}
