/** The rewrite of a model's serialized configuration that turns every standard
    dropout declaration into an always-on one (`replace_dict_values`,
    concise/effects/dropout.py:46-66, used at line 123).

    The rewrite enters dicts, and lists that are dict values. Inside such a list,
    an element that is a dict is entered; any other element, including a nested
    list, is compared as a whole. Every value compared equal to `from` is
    replaced, whatever key it sits under, so a layer whose name is "Dropout" is
    renamed together with the type tags. */
module ConfigRewrite {

  /** A value of the configuration tree. Python tuples are kept apart from lists
      because the rewrite never enters them. */
  datatype Value =
    | Str(s: string)
    | Num(x: real)
    | Flag(b: bool)
    | Null
    | Tuple(elems: seq<Value>)
    | List(items: seq<Value>)
    | Dict(entries: seq<(string, Value)>)

  /** A dict with its keys in insertion order (the order Python iterates them in). */
  type Entries = seq<(string, Value)>

  /** A value the rewrite compares as a whole wherever it stands. */
  predicate IsScalar(v: Value) {
    !v.List? && !v.Dict?
  }

  /** `replace_dict_values(d, from, to)`: a new dict with the same keys, in the same
      order, whose values are rewritten by `RewriteMember`. */
  function RewriteDict(d: Entries, from: Value, to: Value): (r: Entries)
    ensures |r| == |d|
    ensures forall i :: 0 <= i < |d| ==> r[i].0 == d[i].0
    decreases Dict(d), 0
  {
    seq(|d|, i requires 0 <= i < |d| => (d[i].0, RewriteMember(d[i].1, from, to)))
  }

  /** The new value for one key of a dict (lines 49-65). */
  function RewriteMember(v: Value, from: Value, to: Value): Value
    decreases v, 1
  {
    match v
    case Dict(e) => Dict(RewriteDict(e, from, to))
    case List(items) => List(RewriteList(items, from, to))
    case _ => if v == from then to else v
  }

  /** The new list for a list-valued key (lines 52-60): same length, element by element. */
  function RewriteList(items: seq<Value>, from: Value, to: Value): (r: seq<Value>)
    ensures |r| == |items|
    decreases List(items), 0
  {
    seq(|items|, i requires 0 <= i < |items| => RewriteElement(items[i], from, to))
  }

  /** The new value for one list element (lines 54-60): dicts are entered,
      everything else is compared as a whole. */
  function RewriteElement(el: Value, from: Value, to: Value): Value
    decreases el, 1
  {
    match el
    case Dict(e) => Dict(RewriteDict(e, from, to))
    case _ => if el == from then to else el
  }

  /** `x` stands somewhere in dict `d` at a position the rewrite compares. */
  predicate OccursInDict(d: Entries, x: Value)
    decreases Dict(d), 0
  {
    exists i :: 0 <= i < |d| && OccursAsMember(d[i].1, x)
  }

  /** `x` stands in, or is, the dict value `v` at a position the rewrite compares. */
  predicate OccursAsMember(v: Value, x: Value)
    decreases v, 1
  {
    match v
    case Dict(e) => OccursInDict(e, x)
    case List(items) => exists i :: 0 <= i < |items| && OccursAsElement(items[i], x)
    case _ => v == x
  }

  /** `x` stands in, or is, the list element `el` at a position the rewrite compares. */
  predicate OccursAsElement(el: Value, x: Value)
    decreases el, 1
  {
    match el
    case Dict(e) => OccursInDict(e, x)
    case _ => el == x
  }

  /** A dict in which `from` occurs at no compared position comes back unchanged. */
  lemma {:induction false} NoOccurrenceUnchanged(d: Entries, from: Value, to: Value)
    requires !OccursInDict(d, from)
    ensures RewriteDict(d, from, to) == d
    decreases Dict(d), 0
  {
    var r := RewriteDict(d, from, to);
    forall i | 0 <= i < |d| ensures r[i] == d[i] {
      NoOccurrenceUnchangedMember(d[i].1, from, to);
    }
  }

  lemma {:induction false} NoOccurrenceUnchangedMember(v: Value, from: Value, to: Value)
    requires !OccursAsMember(v, from)
    ensures RewriteMember(v, from, to) == v
    decreases v, 1
  {
    match v
    case Dict(e) => NoOccurrenceUnchanged(e, from, to);
    case List(items) =>
      var r := RewriteList(items, from, to);
      forall i | 0 <= i < |items| ensures r[i] == items[i] {
        NoOccurrenceUnchangedElement(items[i], from, to);
      }
    case _ =>
  }

  lemma {:induction false} NoOccurrenceUnchangedElement(el: Value, from: Value, to: Value)
    requires !OccursAsElement(el, from)
    ensures RewriteElement(el, from, to) == el
    decreases el, 1
  {
    match el
    case Dict(e) => NoOccurrenceUnchanged(e, from, to);
    case _ =>
  }

  /** After rewriting with a scalar `to` other than `from`, `from` occurs at no
      compared position: every occurrence has been replaced. */
  lemma {:induction false} RewriteReplacesAll(d: Entries, from: Value, to: Value)
    requires IsScalar(to) && from != to
    ensures !OccursInDict(RewriteDict(d, from, to), from)
    decreases Dict(d), 0
  {
    var r := RewriteDict(d, from, to);
    forall i | 0 <= i < |r| ensures !OccursAsMember(r[i].1, from) {
      RewriteReplacesAllMember(d[i].1, from, to);
    }
  }

  lemma {:induction false} RewriteReplacesAllMember(v: Value, from: Value, to: Value)
    requires IsScalar(to) && from != to
    ensures !OccursAsMember(RewriteMember(v, from, to), from)
    decreases v, 1
  {
    match v
    case Dict(e) => RewriteReplacesAll(e, from, to);
    case List(items) =>
      var r := RewriteList(items, from, to);
      forall i | 0 <= i < |r| ensures !OccursAsElement(r[i], from) {
        RewriteReplacesAllElement(items[i], from, to);
      }
    case _ =>
  }

  lemma {:induction false} RewriteReplacesAllElement(el: Value, from: Value, to: Value)
    requires IsScalar(to) && from != to
    ensures !OccursAsElement(RewriteElement(el, from, to), from)
    decreases el, 1
  {
    match el
    case Dict(e) => RewriteReplacesAll(e, from, to);
    case _ =>
  }

  /** Rewriting twice gives the same tree as rewriting once, for a scalar `to`
      other than `from`. */
  lemma RewriteIdempotent(d: Entries, from: Value, to: Value)
    requires IsScalar(to) && from != to
    ensures RewriteDict(RewriteDict(d, from, to), from, to) == RewriteDict(d, from, to)
  {
    RewriteReplacesAll(d, from, to);
    NoOccurrenceUnchanged(RewriteDict(d, from, to), from, to);
  }

  /** Rewriting `to` back into `from` restores the original tree when `to` is a
      scalar that did not occur in it: only the compared values equal to `from`
      were changed, and each into exactly `to`. */
  lemma {:induction false} RewriteUndone(d: Entries, from: Value, to: Value)
    requires IsScalar(to) && !OccursInDict(d, to)
    ensures RewriteDict(RewriteDict(d, from, to), to, from) == d
    decreases Dict(d), 0
  {
    var r := RewriteDict(RewriteDict(d, from, to), to, from);
    forall i | 0 <= i < |d| ensures r[i] == d[i] {
      RewriteUndoneMember(d[i].1, from, to);
    }
  }

  lemma {:induction false} RewriteUndoneMember(v: Value, from: Value, to: Value)
    requires IsScalar(to) && !OccursAsMember(v, to)
    ensures RewriteMember(RewriteMember(v, from, to), to, from) == v
    decreases v, 1
  {
    match v
    case Dict(e) => RewriteUndone(e, from, to);
    case List(items) =>
      var r := RewriteList(RewriteList(items, from, to), to, from);
      forall i | 0 <= i < |items| ensures r[i] == items[i] {
        RewriteUndoneElement(items[i], from, to);
      }
    case _ =>
  }

  lemma {:induction false} RewriteUndoneElement(el: Value, from: Value, to: Value)
    requires IsScalar(to) && !OccursAsElement(el, to)
    ensures RewriteElement(RewriteElement(el, from, to), to, from) == el
    decreases el, 1
  {
    match el
    case Dict(e) => RewriteUndone(e, from, to);
    case _ =>
  }

  const DropoutTag := Str("Dropout")
  const BiDropoutTag := Str("BiDropout")

  /** The configuration handed to the deserializer (line 123): every compared
      "Dropout" becomes "BiDropout". A configuration without "Dropout" comes back
      unchanged, and the result holds no "Dropout" at any compared position. */
  function ToBiDropoutConfig(config: Entries): (r: Entries)
    ensures |r| == |config| && forall i :: 0 <= i < |config| ==> r[i].0 == config[i].0
    ensures !OccursInDict(config, DropoutTag) ==> r == config
    ensures !OccursInDict(r, DropoutTag)
  {
    RewriteReplacesAll(config, DropoutTag, BiDropoutTag);
    if !OccursInDict(config, DropoutTag) then
      NoOccurrenceUnchanged(config, DropoutTag, BiDropoutTag);
      RewriteDict(config, DropoutTag, BiDropoutTag)
    else
      RewriteDict(config, DropoutTag, BiDropoutTag)
  }

  /** A list nested in a list is not entered: a "Dropout" inside it survives, while
      the same string as a direct list element is replaced. */
  lemma NestedListNotEntered()
    ensures RewriteDict([("a", List([List([DropoutTag]), DropoutTag]))], DropoutTag, BiDropoutTag)
         == [("a", List([List([DropoutTag]), BiDropoutTag]))]
  {
    var inner := List([DropoutTag]);
    assert RewriteElement(inner, DropoutTag, BiDropoutTag) == inner;
    assert RewriteElement(DropoutTag, DropoutTag, BiDropoutTag) == BiDropoutTag;
    var items := RewriteList([inner, DropoutTag], DropoutTag, BiDropoutTag);
    assert items == [inner, BiDropoutTag];
  }

  /** Any value equal to "Dropout" is replaced, not only type tags: a layer named
      "Dropout" is renamed as well. */
  lemma LayerNameRewritten()
    ensures RewriteDict([("class_name", DropoutTag), ("config", Dict([("name", DropoutTag), ("rate", Num(0.5))]))],
                        DropoutTag, BiDropoutTag)
         == [("class_name", BiDropoutTag), ("config", Dict([("name", BiDropoutTag), ("rate", Num(0.5))]))]
  {
    var inner := [("name", DropoutTag), ("rate", Num(0.5))];
    assert RewriteDict(inner, DropoutTag, BiDropoutTag) == [("name", BiDropoutTag), ("rate", Num(0.5))];
  }
}
