/**
 * Template interpolation: for each name of the value map, in the map's
 * iteration order, every literal `[[name]]` in the text so far is replaced
 * by that name's value.
 */
module Template {
  import opened Text

  /** The placeholder token for a logical field name. */
  function Placeholder(name: string): string
  {
    "[[" + name + "]]"
  }

  /** The template after replacing the placeholders of `order`'s names one name after another. */
  function Interpolated(text: string, values: map<string, string>, order: seq<string>): string
    requires forall i :: 0 <= i < |order| ==> order[i] in values
    decreases |order|
  {
    if order == [] then text
    else Interpolated(Replace(text, Placeholder(order[0]), values[order[0]]), values, order[1..])
  }

  /** The interpolation loop: `interpolated_template` rewritten once per name of the value map. */
  method Interpolate(template: string, values: map<string, string>, order: seq<string>) returns (text: string)
    requires forall i :: 0 <= i < |order| ==> order[i] in values
    ensures text == Interpolated(template, values, order)
  {
    text := template;
    var i := 0;
    while i < |order|
      invariant 0 <= i <= |order|
      invariant Interpolated(template, values, order) == Interpolated(text, values, order[i..])
    {
      assert order[i..][1..] == order[i + 1..];
      text := Replace(text, Placeholder(order[i]), values[order[i]]);
      i := i + 1;
    }
    assert order[i..] == [];
  }

  /** Text in which no name's placeholder occurs is left exactly as it is. */
  lemma {:induction false} InterpolatedWithoutPlaceholders(text: string, values: map<string, string>, order: seq<string>)
    requires forall i :: 0 <= i < |order| ==> order[i] in values
    requires forall i :: 0 <= i < |order| ==> !Contains(text, Placeholder(order[i]))
    ensures Interpolated(text, values, order) == text
  {
    if order != [] {
      ReplaceAbsent(text, Placeholder(order[0]), values[order[0]]);
      InterpolatedWithoutPlaceholders(text, values, order[1..]);
    }
  }

  lemma {:induction false} ContainsPrefixOfPattern(s: string, a: string, b: string)
    requires Contains(s, a + b)
    ensures Contains(s, a)
  {
    if StartsWith(s, a + b) {
      assert s[..|a|] == (a + b)[..|a|] == a;
    } else {
      ContainsPrefixOfPattern(s[1..], a, b);
    }
  }

  /** A template without any "[[" comes out of interpolation unchanged, whatever the values. */
  lemma InterpolatedWithoutBrackets(text: string, values: map<string, string>, order: seq<string>)
    requires forall i :: 0 <= i < |order| ==> order[i] in values
    requires !Contains(text, "[[")
    ensures Interpolated(text, values, order) == text
  {
    forall i | 0 <= i < |order| ensures !Contains(text, Placeholder(order[i])) {
      assert "[[" + (order[i] + "]]") == Placeholder(order[i]);
      if Contains(text, "[[" + (order[i] + "]]")) {
        ContainsPrefixOfPattern(text, "[[", order[i] + "]]");
      }
    }
    InterpolatedWithoutPlaceholders(text, values, order);
  }

  /** With one name, interpolation cuts the text at that name's placeholders and puts the value in every cut. */
  lemma InterpolatedOneName(text: string, values: map<string, string>, name: string)
    requires name in values
    ensures Interpolated(text, values, [name]) == Join(Split(text, Placeholder(name)), values[name])
  {
    ReplaceIsJoinOfSplit(text, Placeholder(name), values[name]);
  }
}
