# Phlex emission protocol, modelled in Dafny

What is modelled here is the core of Phlex's HTML emission: the `Phlex::Context` mixin and the `Phlex::BlackHole` sink.

A component renders by appending strings to one output buffer, the *target*. Elements can be standard (open tag, body, close tag) or void (open tag, self-closing terminator). Their keyword attributes go through `_attributes`, which does four things:
- validates the attribute names;
- escapes the values;
- strips a leading `javascript:` scheme from an `href`;
- either serializes the attributes or replays a fragment from the process-wide attribute cache.

`Phlex::BlackHole` is a sink that discards whatever is appended to it.

The project has five files:
- `values.dfy`: Ruby values as the protocol sees them (booleans, `nil`, Strings, other objects), with truthiness and `to_s`.
- `escaping.dfy`: `CGI.escape_html` on the five reserved characters, with an entity decoder as its inverse.
- `attributes.dfy`: the attribute serializer. `AttributesStep` states the whole effect of one `_attributes` call: outcome, appended text and new cache.
- `context.dfy`: the specification functions of the element operations, the `AttributeCache` and `Context` classes, and the three loops of `_attributes` as methods proved against those functions.
- `black_hole.dfy`: the sink.

The context's mutable state is held in class fields:
- `Context.target`, the output buffer;
- `AttributeCache.entries`, the cache, keyed by the integer that Ruby's `Hash#hash` gives.

Every state-changing method states its new target and cache exactly, in terms of a specification function of the old state. Those specification functions carry the lemmas.

Some behaviours of the code are easy to miss; the model follows the code:
- An unsafe attribute name raises after `<name` has already been appended to the target, so the target keeps a half-open tag (`UnsafeNameLeavesOpenTag`).
- A void element takes no block, so a block given to it is never run and nothing is raised.
- `sub!` removes only the first match of `^\s*(javascript:)+`. One strip never leaves the text beginning with `javascript:` (`StrippedDoesNotStartWithScheme`). It can leave whitespace followed by `javascript:`: `javascript: javascript:x` becomes ` javascript:x`, which a second strip reduces to `x` (`StripRemovesFirstMatchOnly`, `StripOfStripped`).
- `^` is a line start, not the start of the text, so a match after a line feed is removed too: `x\njavascript:y` becomes `x\ny` (`StripAtLineStart`).
- `text`, `_raw` and `whitespace` return the target itself. A block whose only output is `text("")` (or that appends nothing else and ends with it) therefore appends nothing and returns the target, and `content` then appends an escaped copy of everything written so far (`Context.ContentOfTextEmpty`).
- `nil` is not skipped. `transform_values!` turns it into `""`, which is truthy, so it is emitted as `name=""` (`NilGivesEmptyValue`). Only `false` is skipped.
- The cache is looked up under the hash of the attributes as given, but the fragment is stored under the hash of the transformed ones. So different attributes can later hit an entry made for other attributes (`StaleHitAfterTransform`), and a first render can overwrite an existing entry. Serializing the same attributes twice in a row gives the same text (`RepeatSameOutput`), but only for consecutive calls: a first render of `title: "<"` between two calls with `title: "&lt;"` changes what the second one appends (`StaleHitAfterTransform`).

## Model

| member | source | states |
|---|---|---|
| Escaping.Escape | lib/phlex/context.rb:13-15 | the escaped text contains no raw `<`, `>`, `"` or `'`, and is at least as long as the input |
| Escaping.UnescapeEscape | lib/phlex/context.rb:13-15 | decoding the entities of escaped text gives back the original text, so escaping loses nothing |
| Escaping.EscapeConcat | lib/phlex/context.rb:13-15 | escaping distributes over concatenation, so two `text` calls append what one `text` of the joined strings appends |
| Escaping.EscapeSafe | lib/phlex/context.rb:85 | text without reserved characters is its own escape |
| AttributeSerializer.TransformValue | lib/phlex/context.rb:83-86 | a boolean is kept as it is; any other value becomes text with no raw markup, whose entities decode back to the value's `to_s` |
| AttributeSerializer.TransformValues | lib/phlex/context.rb:83-86 | names and order are kept, and every value is transformed in its place |
| AttributeSerializer.TransformValuesConcat | lib/phlex/context.rb:83-86 | transforming two attribute lists one after the other is transforming their concatenation |
| AttributeSerializer.FirstIndex | lib/phlex/context.rb:88 | `attributes[:href]` finds the first attribute with that name, and none occurs before it; or it reports that none exists |
| AttributeSerializer.SpaceRunSpaces | lib/phlex/context.rb:88 | `\s*` is greedy: every character of the run is a space and the next one is not |
| AttributeSerializer.SchemeRun | lib/phlex/context.rb:88 | `(javascript:)+` is greedy: the run is non-empty exactly when the scheme is present, and no further copy of the scheme follows it |
| AttributeSerializer.SchemeRunCopies | lib/phlex/context.rb:88 | the run is made of whole copies of `javascript:` and nothing else |
| AttributeSerializer.MatchShape | lib/phlex/context.rb:88 | a match is a run of spaces followed by one or more whole copies of `javascript:`, with no further copy after them |
| AttributeSerializer.FirstMatch | lib/phlex/context.rb:88 | the position found is inside the text, is a line start, and has a non-empty match there |
| AttributeSerializer.FirstMatchLeftmost | lib/phlex/context.rb:88 | no earlier position matches, so the match `sub!` replaces is the leftmost one |
| AttributeSerializer.StripScheme | lib/phlex/context.rb:88 | the text changes exactly when the pattern matches somewhere, and never grows |
| AttributeSerializer.StripRemovesOneMatch | lib/phlex/context.rb:88 | the strip removes the match at the leftmost matching line start, and keeps everything before and after it |
| AttributeSerializer.StripKeepsNoMarkup | lib/phlex/context.rb:88 | the strip adds no raw markup to an escaped href |
| AttributeSerializer.StrippedDoesNotStartWithScheme | lib/phlex/context.rb:88 | after the strip, the href never begins with `javascript:` |
| AttributeSerializer.StripRepeatedScheme | lib/phlex/context.rb:88 | a repeated scheme is removed as one run: `javascript:javascript:alert(1)` becomes `alert(1)` |
| AttributeSerializer.StripRemovesFirstMatchOnly | lib/phlex/context.rb:88 | only the first match goes: `javascript: javascript:x` becomes ` javascript:x` |
| AttributeSerializer.StripOfStripped | lib/phlex/context.rb:88 | stripping that result again removes more, so the strip is not idempotent |
| AttributeSerializer.StripAtLineStart | lib/phlex/context.rb:88 | `^` matches after a line feed: `x\njavascript:y` becomes `x\ny` |
| AttributeSerializer.SubHref | lib/phlex/context.rb:88 | the first href decides: it raises NoMethodError exactly when it is truthy and not a String; a String href is replaced by its strip, a falsy one is kept; without an href nothing changes; names, order and every attribute not named `href` are kept |
| AttributeSerializer.SubHrefText | lib/phlex/context.rb:88 | a String href is replaced by its strip and the call does not raise |
| AttributeSerializer.FirstIndexSameNames | lib/phlex/context.rb:83-88 | the href lookup depends on names only, so it finds the same attribute before and after `transform_values!` |
| AttributeSerializer.Prepare | lib/phlex/context.rb:74-88 | ArgumentError is raised exactly when some name is unsafe; otherwise NoMethodError is raised exactly when the first href is `true`; a prepared list keeps names and order, holds the transformed value of every attribute not named `href`, and holds the href as `false`, `true` or the strip of its escaped text; every prepared value is a boolean or text without raw markup |
| AttributeSerializer.PreparedValuesSafe | lib/phlex/context.rb:83-88 | the href strip keeps every transformed value free of raw markup |
| AttributeSerializer.Piece | lib/phlex/context.rb:90-98 | a falsy value emits nothing; a truthy one emits the separator and the name first |
| AttributeSerializer.TextPiece | lib/phlex/context.rb:96 | a text value goes between the quotes as it is |
| AttributeSerializer.FragmentConcat | lib/phlex/context.rb:90-98 | the fragment of two attribute lists is the concatenation of their fragments, so attributes are emitted in insertion order |
| AttributeSerializer.FragmentSkipsFalse | lib/phlex/context.rb:90-91 | a `false` attribute contributes nothing, wherever it stands |
| AttributeSerializer.PieceFormat | lib/phlex/context.rb:83-98 | `true` gives the bare name; `false` gives nothing; `nil` gives `name=""`; any other value gives `name="escaped to_s"` |
| AttributeSerializer.AttributesStep | lib/phlex/context.rb:65-103 | a call raises only on a miss, with the error of the preparation; the cache changes only on a completed first-render miss, and then only by storing what was appended under the key of the transformed attributes |
| AttributeSerializer.CacheHitVerbatim | lib/phlex/context.rb:65-68 | a cache hit appends the stored text verbatim, validates nothing and leaves the cache unchanged |
| AttributeSerializer.MissSameBytesEitherRender | lib/phlex/context.rb:70-102 | on a miss, a first and a later render end alike and append the same fragment; only a completed first render stores it, under the key of the transformed attributes |
| AttributeSerializer.SafeNoHrefCompletes | lib/phlex/context.rb:70-102 | on a miss, safe names without an `href` complete and append the fragment of the transformed attributes; a first render stores it under their key |
| AttributeSerializer.RepeatSameOutput | lib/phlex/context.rb:65-102 | a completed call followed by the same call, on the cache it left, completes again and appends the same text |
| AttributeSerializer.UnsafeNameRaises | lib/phlex/context.rb:74-81 | an unsafe name on a miss raises ArgumentError with nothing appended and nothing cached |
| AttributeSerializer.RaisedAppendsNothing | lib/phlex/context.rb:65-103 | a call that raises appends nothing and leaves the cache unchanged |
| AttributeSerializer.CacheKeysGrow | lib/phlex/context.rb:100-102 | no cache key is ever removed |
| AttributeSerializer.NilGivesEmptyValue | lib/phlex/context.rb:83-96 | a `nil` value is emitted as `name=""` |
| AttributeSerializer.HrefFalseLeftAlone | lib/phlex/context.rb:88-91 | `href: false` neither raises nor is emitted: the call completes and appends just the other attributes' pieces |
| AttributeSerializer.HrefTextStripped | lib/phlex/context.rb:83-101 | a non-boolean href, wherever it stands, is escaped, stripped and emitted in its place among the other transformed attributes; the call completes and a first render stores that fragment |
| AttributeSerializer.HrefTrueRaises | lib/phlex/context.rb:88 | `href: true` makes `sub!` raise NoMethodError, with nothing appended or cached |
| AttributeSerializer.HrefSchemeStripped | lib/phlex/context.rb:83-98 | a `javascript:javascript:alert(1)` href is emitted as `href="alert(1)"` |
| AttributeSerializer.StaleHitAfterTransform | lib/phlex/context.rb:65-102 | after a first render of `title: "<"`, the attributes `title: "&lt;"` hit that cache entry and get `title="&lt;"`, whereas serializing them would give `title="&amp;lt;"` |
| PhlexContext.ContentOutput | lib/phlex/context.rb:5-11 | `content` adds nothing without a block, and otherwise either the block's own output or, when the block appended nothing, text without raw markup |
| PhlexContext.ContentRule | lib/phlex/context.rb:5-11 | a block that appended output adds only that output; one that appended nothing adds its String result escaped, and a non-String result adds nothing |
| PhlexContext.StandardElementStep | lib/phlex/context.rb:41-57 | a raise leaves the cache alone and appends nothing (content and block together) or exactly `<name` (bad attributes); without attributes, the cache is untouched and only content with a block raises |
| PhlexContext.ContentAndBlockRaiseFirst | lib/phlex/context.rb:41-42 | explicit content together with a block raises ArgumentError before anything is appended; `""` counts as content |
| PhlexContext.StandardElementLayout | lib/phlex/context.rb:41-57 | a completed standard element is open tag, fragment, right bracket, body and close tag; the body is the block's content, or else the escaped explicit content, or else empty |
| PhlexContext.VoidElementStep | lib/phlex/context.rb:59-63 | a raise leaves the cache alone and appends exactly `<name`; without attributes, the element is `<name` and the terminator, and the cache is untouched |
| PhlexContext.VoidElementLayout | lib/phlex/context.rb:59-63 | a completed void element is open tag, fragment and self-closing terminator, with no body |
| PhlexContext.UnsafeNameLeavesOpenTag | lib/phlex/context.rb:41-63 | an unsafe attribute name on a miss raises with `<name` left in the target, for standard and void elements alike |
| PhlexContext.HrefTrueLeavesOpenTag | lib/phlex/context.rb:41-88 | `href: true` on a miss raises NoMethodError with `<name` left in the target and the cache unchanged, for standard and void elements alike |
| PhlexContext.CheckNames | lib/phlex/context.rb:74-81 | the `each_key` loop accepts exactly when every name is free of `<>&"'` |
| PhlexContext.TransformEach | lib/phlex/context.rb:83-86 | the `transform_values!` loop keeps names and order, keeps booleans, and replaces every other value with the escaped text of its `to_s` |
| PhlexContext.EmitPieces | lib/phlex/context.rb:90-98 | the `each` loop appends exactly the fragment of the transformed attributes to its buffer |
| PhlexContext.AttributeCache.constructor | lib/phlex/context.rb:66 | the cache starts empty |
| PhlexContext.Context.Content | lib/phlex/context.rb:5-11 | the target grows by exactly the content rule's output |
| PhlexContext.Context.ContentOfTextEmpty | lib/phlex/context.rb:5-14 | `content { text("") }` appends an escaped copy of the whole target as it was before |
| PhlexContext.Context.Text | lib/phlex/context.rb:13-15 | the target grows by the escaped text |
| PhlexContext.Context.Whitespace | lib/phlex/context.rb:17-19 | the target grows by one space |
| PhlexContext.Context.Raw | lib/phlex/context.rb:21-23 | the target grows by the text unescaped |
| PhlexContext.Context.TemplateTag | lib/phlex/context.rb:37-39 | behaves exactly as a standard element named `template` |
| PhlexContext.Context.StandardElement | lib/phlex/context.rb:41-57 | outcome, new target and new cache are those of the standard element specification |
| PhlexContext.Context.VoidElement | lib/phlex/context.rb:59-63 | outcome, new target and new cache are those of the void element specification, whatever block is passed |
| PhlexContext.Context.Attributes | lib/phlex/context.rb:65-103 | outcome, new target and new cache are those of `AttributesStep` on the old cache, whether the fragment goes through a fresh buffer (first render) or straight into the target |
| PhlexBlackHole.BlackHole.Append | lib/phlex/black_hole.rb:7-9 | `<<` answers the sink itself |
| PhlexBlackHole.BlackHole.Length | lib/phlex/black_hole.rb:11-13 | the length is always 0 |
| PhlexBlackHole.BlackHole.Dup | lib/phlex/black_hole.rb:15-17 | `dup` answers the sink itself, not a copy |
| PhlexBlackHole.BlackHole.Clear | lib/phlex/black_hole.rb:19-21 | `clear` answers the sink itself |
| PhlexBlackHole.Replay | lib/phlex/black_hole.rb:7-21 | any chain of `<<`, `dup` and `clear` stays on the sink, and its length afterwards is 0 |

## Left out

- `component` (lib/phlex/context.rb:25-35): it instantiates and renders another component class. Class hierarchies, `Phlex::Block` wrapping and nested rendering are outside this model.
- The `alias_method` loops (lib/phlex/context.rb:105-111) and `__callee__`: the element name is an explicit parameter of `StandardElement` and `VoidElement`. The `_name:` keyword is used only by `template_tag`, which passes `"template"`.
- The `Tag::*` constants and `STANDARD_ELEMENTS` / `VOID_ELEMENTS`: they are defined outside this model, so the constants are the `Tags` parameter and every element name is allowed.
- `rendered_at_least_once`: it is set outside this model, so the first-render flag is a constant of the context.
- `Hash#hash` is an arbitrary function `key` from attribute lists to integers. No injectivity is assumed, so collisions are covered.
- The attribute cache is shared across threads in Ruby; concurrent access is not modelled.
- `CGI.escape_html` is modelled on its five reserved characters only; its native implementation is not.
- A block is abstracted as the text it appends and the value it returns. A block that raises, or that itself writes the cache, is not modelled.
- Context.Text, Context.Raw: arguments are Strings only. In Ruby `text(nil)` and `text(1)` raise, because `CGI.escape_html` needs a String; `_raw(nil)` raises TypeError from `String#<<`; and `_raw(65)` appends the character with that codepoint. None of these cases is modelled.
- Explicit element content is modelled as a String or nothing. A truthy non-String content passed to `text` is not modelled.
- RubyValues.Other: an object other than a boolean, `nil` or a String is kept as its `to_s` text only, so two objects with the same `to_s` are one model value, and `key` gives them one hash, which Ruby's `Hash#hash` usually does not.
- Attribute names are modelled as the text of their Symbols. String keys, and `name` on them, are not modelled.
- Attribute lists are not required to have distinct names, as a Ruby Hash would; only the first `href` is looked at.
- `freeze` and frozen-string behaviour are not modelled, since the emitted bytes do not depend on them.
- `content` on a `BlackHole` target: BlackHole defines `length` but not `size`, so `content` would raise NoMethodError there. The modelled target is always a String.
- BlackHole's `extend self` module-singleton form is modelled as a class whose methods answer `this`.
