/**
 * A page of a gamebook: its text and the choices it offers, each a label leading to
 * another page. Pages point at each other, so a page is an object whose content and
 * choices change in place.
 */
module Pages {

  class Page {
    var content: string
    /** The labelled choices; a label may lead to no page (`null`). */
    var choices: map<string, Page?>

    /** `Page(content)`: the content and no choices. */
    constructor (content: string)
      ensures this.content == content && choices == map[]
    {
      this.content := content;
      choices := map[];
    }

    /** `getContent`. */
    function GetContent(): string
      reads this
    {
      content
    }

    /** `setContent`: the content is replaced, the choices are left alone. */
    method SetContent(c: string)
      modifies this
      ensures content == c && choices == old(choices)
    {
      content := c;
    }

    /** `getChoices`. */
    function GetChoices(): map<string, Page?>
      reads this
    {
      choices
    }

    /** `addChoice`: the choice now leads to `target`, replacing what it led to before, and
        every other choice keeps its target. */
    method AddChoice(choice: string, target: Page?)
      modifies this
      ensures choices == old(choices)[choice := target] && content == old(content)
      ensures choice in choices && choices[choice] == target
      ensures forall l :: l != choice ==> (l in choices <==> l in old(choices))
      ensures forall l :: l != choice && l in old(choices) ==> choices[l] == old(choices)[l]
      ensures |choices| == if choice in old(choices) then |old(choices)| else |old(choices)| + 1
    {
      ChoiceAdded(choices, choice, target);
      choices := choices[choice := target];
    }

    /** `removeChoice`: the choice is gone and every other choice stays; removing a choice
        that is not there changes nothing. */
    method RemoveChoice(choice: string)
      modifies this
      ensures choices == old(choices) - {choice} && content == old(content)
      ensures choice !in choices
      ensures forall l :: l != choice ==> (l in choices <==> l in old(choices))
      ensures forall l :: l in choices ==> choices[l] == old(choices)[l]
      ensures choice !in old(choices) ==> choices == old(choices)
      ensures |choices| == if choice in old(choices) then |old(choices)| - 1 else |old(choices)|
    {
      ChoiceRemoved(choices, choice);
      choices := choices - {choice};
    }

    /** `equals`: the same page, or another non-null page with the same content; the
        choices play no part. */
    predicate Equals(other: Page?)
      reads this, other
      ensures Equals(other) <==> other != null && content == other.content
    {
      if this == other then true
      else other != null && content == other.content
    }
  }

  // ---------------------------------------------------------------- lemmas

  /** Adding a choice grows the map by one for a new choice and keeps its size for a choice
      already there. */
  lemma ChoiceAdded(m: map<string, Page?>, choice: string, target: Page?)
    ensures m[choice := target].Keys == m.Keys + {choice}
    ensures |m[choice := target]| == if choice in m then |m| else |m| + 1
  {
    var n := m[choice := target];
    assert n.Keys == m.Keys + {choice};
    if choice in m {
      assert n.Keys == m.Keys;
    } else {
      assert |m.Keys + {choice}| == |m.Keys| + 1;
    }
  }

  /** Removing a choice shrinks the map by one for a choice that is there and leaves it
      alone for one that is not. */
  lemma ChoiceRemoved(m: map<string, Page?>, choice: string)
    ensures (m - {choice}).Keys == m.Keys - {choice}
    ensures |m - {choice}| == if choice in m then |m| - 1 else |m|
    ensures choice !in m ==> m - {choice} == m
  {
    var n := m - {choice};
    assert n.Keys == m.Keys - {choice};
    if choice in m {
      assert |m.Keys - {choice}| == |m.Keys| - 1;
    } else {
      assert n.Keys == m.Keys;
    }
  }

  /** Removing a choice undoes adding it when the choice was new. */
  lemma RemoveUndoesAdd(m: map<string, Page?>, choice: string, target: Page?)
    requires choice !in m
    ensures m[choice := target] - {choice} == m
  {
    assert (m[choice := target] - {choice}).Keys == m.Keys;
  }

  /** Page equality is reflexive and symmetric. */
  lemma EqualsReflexiveSymmetric(p: Page, q: Page)
    ensures p.Equals(p)
    ensures p.Equals(q) <==> q.Equals(p)
  {
  }
}
