/**
 * The HTML string builders: escaping of the six HTML-significant characters,
 * one `<li>` fragment per todo by placeholder substitution into a fixed
 * template, the list rendering, the counter text and the clear button label.
 */
module TodoTemplate {
  import opened Items
  import opened JsStrings

  // ---------------------------------------------------------------------------
  // escaping
  // ---------------------------------------------------------------------------

  /** The characters the escape table has an entry for. */
  predicate IsHtmlSpecial(c: char) {
    c == '&' || c == '<' || c == '>' || c == '"' || c == '\'' || c == '`'
  }

  /** The entity the escape table gives a special character: `&`, a name or a hex reference, `;`. */
  function EscapeHtmlChar(c: char): (e: string)
    requires IsHtmlSpecial(c)
    ensures 4 <= |e| <= 6 && e[0] == '&' && e[|e| - 1] == ';'
    ensures forall i :: 0 < i < |e| ==> !IsHtmlSpecial(e[i])
  {
    match c
    case '&' => "&amp;"
    case '<' => "&lt;"
    case '>' => "&gt;"
    case '"' => "&quot;"
    case '\'' => "&#x27;"
    case '`' => "&#x60;"
  }

  /** One character as the global replace leaves it: its entity when it is special, itself otherwise. */
  function EscapeOne(c: char): (r: string)
    ensures !IsHtmlSpecial(c) ==> r == [c]
    ensures IsHtmlSpecial(c) ==> |r| > 1 && r[0] == '&'
  {
    if IsHtmlSpecial(c) then EscapeHtmlChar(c) else [c]
  }

  /**
   * Every special character replaced by its entity, everything else kept: the
   * result holds no `<`, `>`, `"`, `'` or backquote, and is never shorter.
   */
  function EscapeAll(s: string): (r: string)
    ensures |r| >= |s|
    ensures forall i :: 0 <= i < |r| ==> r[i] == '&' || !IsHtmlSpecial(r[i])
  {
    if s == [] then [] else EscapeOne(s[0]) + EscapeAll(s[1..])
  }

  /** A string without special characters comes out of the replace unchanged. */
  lemma {:induction false} EscapeAllPlain(s: string)
    requires forall i :: 0 <= i < |s| ==> !IsHtmlSpecial(s[i])
    ensures EscapeAll(s) == s
  {
    if s != [] {
      EscapeAllPlain(s[1..]);
      assert [s[0]] + s[1..] == s;
    }
  }

  predicate HasHtmlSpecial(s: string) {
    exists i :: 0 <= i < |s| && IsHtmlSpecial(s[i])
  }

  /**
   * `escape`: the empty string and strings without special characters are handed
   * back as they are; the others go through the global replace. Either way the
   * result is the replace's result.
   */
  function Escape(s: string): (r: string)
    ensures r == EscapeAll(s)
    ensures !HasHtmlSpecial(s) ==> r == s
  {
    if s == [] || !HasHtmlSpecial(s) then
      EscapeAllPlain(s);
      s
    else
      EscapeAll(s)
  }

  /** Whether an entity of the escape table starts at `i`. */
  predicate EntityAt(r: string, i: nat)
    requires i <= |r|
  {
    var t := r[i..];
    "&amp;" <= t || "&lt;" <= t || "&gt;" <= t || "&quot;" <= t || "&#x27;" <= t || "&#x60;" <= t
  }

  /** In escaped text every `&` begins one of the table's entities. */
  lemma {:induction false} EscapeAllAmpersands(s: string)
    ensures forall i :: 0 <= i < |EscapeAll(s)| && EscapeAll(s)[i] == '&' ==> EntityAt(EscapeAll(s), i)
  {
    if s != [] {
      EscapeAllAmpersands(s[1..]);
      var e := EscapeOne(s[0]);
      var rest := EscapeAll(s[1..]);
      var r := e + rest;
      forall i | 0 <= i < |r| && r[i] == '&' ensures EntityAt(r, i) {
        if i < |e| {
          assert IsHtmlSpecial(s[0]);
          assert i == 0;
          assert e <= r;
        } else {
          assert r[i..] == rest[i - |e|..];
        }
      }
    }
  }

  /** Turns the table's entities back into their characters, left to right. */
  function Unescape(r: string): string
    decreases |r|
  {
    if r == [] then []
    else if "&amp;" <= r then "&" + Unescape(r[5..])
    else if "&lt;" <= r then "<" + Unescape(r[4..])
    else if "&gt;" <= r then ">" + Unescape(r[4..])
    else if "&quot;" <= r then "\"" + Unescape(r[6..])
    else if "&#x27;" <= r then "'" + Unescape(r[6..])
    else if "&#x60;" <= r then "`" + Unescape(r[6..])
    else [r[0]] + Unescape(r[1..])
  }

  /** Decoding one escaped character in front of any text yields that character first. */
  lemma UnescapeOne(c: char, rest: string)
    ensures Unescape(EscapeOne(c) + rest) == [c] + Unescape(rest)
  {
    var r := EscapeOne(c) + rest;
    var e := EscapeOne(c);
    assert r[|e|..] == rest;
    if !IsHtmlSpecial(c) {
      assert r[0] == c && r[1..] == rest;
    } else {
      assert e <= r;
      assert r[0] == '&' && r[1] == e[1] && r[2] == e[2] && r[3] == e[3];
    }
  }

  /** Escaping loses nothing: decoding the entities gives the original text back. */
  lemma {:induction false} EscapeRoundTrip(s: string)
    ensures Unescape(Escape(s)) == s
  {
    EscapeAllRoundTrip(s);
  }

  lemma {:induction false} EscapeAllRoundTrip(s: string)
    ensures Unescape(EscapeAll(s)) == s
  {
    if s != [] {
      EscapeAllRoundTrip(s[1..]);
      UnescapeOne(s[0], EscapeAll(s[1..]));
      assert [s[0]] + s[1..] == s;
    }
  }

  // ---------------------------------------------------------------------------
  // replacing the first occurrence of a placeholder
  // ---------------------------------------------------------------------------

  /** `s.replace(pat, rep)` for a string pattern: only the first occurrence, the replacement taken literally. */
  function ReplaceFirst(s: string, pat: string, rep: string): (r: string)
    requires pat != []
    ensures |r| == |s| || (|s| >= |pat| && |r| == |s| - |pat| + |rep|)
    decreases |s|
  {
    if |s| < |pat| then s
    else if s[..|pat|] == pat then rep + s[|pat|..]
    else [s[0]] + ReplaceFirst(s[1..], pat, rep)
  }

  /** `pat` occurs in `s` at index `k`. */
  predicate Occurs(s: string, pat: string, k: int) {
    0 <= k && k + |pat| <= |s| && s[k..k + |pat|] == pat
  }

  /** An occurrence in the tail is an occurrence one further on in the whole. */
  lemma OccursShift(s: string, pat: string, k: int)
    requires s != []
    ensures Occurs(s[1..], pat, k) ==> Occurs(s, pat, k + 1)
  {
    if Occurs(s[1..], pat, k) {
      assert s[k + 1..k + 1 + |pat|] == s[1..][k..k + |pat|];
    }
  }

  /** Without an occurrence at the front, `replace` keeps the first character and goes on with the rest. */
  lemma ReplaceFirstPass(s: string, pat: string, rep: string)
    requires pat != [] && s != [] && !Occurs(s, pat, 0)
    ensures ReplaceFirst(s, pat, rep) == [s[0]] + ReplaceFirst(s[1..], pat, rep)
  {
    if |s| >= |pat| {
      assert s[0..|pat|] == s[..|pat|];
    }
  }

  /** Text in which the pattern does not occur comes back unchanged. */
  lemma {:induction false} ReplaceFirstAbsent(s: string, pat: string, rep: string)
    requires pat != []
    requires forall k :: !Occurs(s, pat, k)
    ensures ReplaceFirst(s, pat, rep) == s
    decreases |s|
  {
    if |s| >= |pat| {
      assert !Occurs(s, pat, 0);
      forall k ensures !Occurs(s[1..], pat, k) {
        OccursShift(s, pat, k);
      }
      ReplaceFirstPass(s, pat, rep);
      ReplaceFirstAbsent(s[1..], pat, rep);
      assert [s[0]] + s[1..] == s;
    }
  }

  /** The slices of `s` before `i` and from `j`, read through its tail. */
  lemma FrontSlices(s: string, i: nat, j: nat)
    requires 0 < i <= j <= |s|
    ensures s[..i] == [s[0]] + s[1..][..i - 1]
    ensures s[j..] == s[1..][j - 1..]
  {
  }

  /** When the first occurrence of the pattern is at `i`, exactly that occurrence is replaced. */
  lemma {:induction false} ReplaceFirstAt(s: string, pat: string, rep: string, i: nat)
    requires pat != []
    requires Occurs(s, pat, i)
    requires forall k :: 0 <= k < i ==> !Occurs(s, pat, k)
    ensures ReplaceFirst(s, pat, rep) == s[..i] + rep + s[i + |pat|..]
    decreases |s|
  {
    if i == 0 {
      assert s[..|pat|] == pat;
    } else {
      var t := s[1..];
      ReplaceFirstPass(s, pat, rep);
      assert Occurs(t, pat, i - 1) by {
        assert t[i - 1..i - 1 + |pat|] == s[i..i + |pat|];
      }
      forall k | 0 <= k < i - 1 ensures !Occurs(t, pat, k) {
        OccursShift(s, pat, k);
      }
      ReplaceFirstAt(t, pat, rep, i - 1);
      FrontSlices(s, i, i + |pat|);
      assert [s[0]] + (t[..i - 1] + rep + t[i - 1 + |pat|..]) == s[..i] + rep + s[i + |pat|..];
    }
  }

  /** Text that does not hold the pattern's first character is passed over unchanged. */
  lemma {:induction false} ReplaceFirstSkip(a: string, b: string, pat: string, rep: string)
    requires pat != [] && pat[0] !in a
    ensures ReplaceFirst(a + b, pat, rep) == a + ReplaceFirst(b, pat, rep)
  {
    if a == [] {
      assert a + b == b;
    } else {
      var s := a + b;
      assert s[0] == a[0];
      assert s[1..] == a[1..] + b;
      ReplaceFirstSkip(a[1..], b, pat, rep);
      if |s| < |pat| {
        assert |b| < |pat|;
      } else {
        assert s[..|pat|][0] != pat[0];
      }
    }
  }

  /** A placeholder at the front is the first occurrence. */
  lemma ReplaceFirstHere(pat: string, b: string, rep: string)
    requires pat != []
    ensures ReplaceFirst(pat + b, pat, rep) == rep + b
  {
    assert (pat + b)[..|pat|] == pat;
    assert (pat + b)[|pat|..] == b;
  }

  /**
   * Another `{{name}}` placeholder is passed over when the pattern is a
   * placeholder whose name starts with a different character.
   */
  lemma ReplaceFirstSkipSlot(name: string, b: string, pat: string, rep: string)
    requires |pat| >= 3 && pat[0] == '{' && pat[1] == '{'
    requires name != [] && name[0] != pat[2] && '{' !in name
    ensures ReplaceFirst(Slot(name) + b, pat, rep) == Slot(name) + ReplaceFirst(b, pat, rep)
  {
    var tail := name + "}}";
    var s := "{{" + tail + b;
    var s1 := "{" + tail + b;
    assert Slot(name) + b == s;
    assert s[1..] == s1 && s1[1..] == tail + b;
    if |s| >= |pat| {
      assert s[0..|pat|][2] == name[0];
    }
    ReplaceFirstPass(s, pat, rep);
    if |s1| >= |pat| {
      assert s1[0..|pat|][1] == name[0];
    }
    ReplaceFirstPass(s1, pat, rep);
    assert '{' !in tail;
    ReplaceFirstSkip(tail, b, pat, rep);
    assert [s[0]] + ([s1[0]] + (tail + ReplaceFirst(b, pat, rep))) == Slot(name) + ReplaceFirst(b, pat, rep);
  }

  // ---------------------------------------------------------------------------
  // one item, the list
  // ---------------------------------------------------------------------------

  /** A placeholder of the item template: the name between double braces. */
  function Slot(name: string): string {
    "{{" + name + "}}"
  }

  const IdSlot := Slot("id")
  const CompletedSlot := Slot("completed")
  const CheckedSlot := Slot("checked")
  const TitleSlot := Slot("title")

  /** The text of the item template between its placeholders. */
  const Open := "<li data-id=\""
  const ClassAttr := "\" class=\""
  const Checkbox := ViewDiv + Toggle
  const ViewDiv := "\"><div class=\"view\">"
  const Toggle := "<input class=\"toggle\" type=\"checkbox\" "
  const Label := "><label>"
  const Close := "</label><button class=\"destroy\"></button></div></li>"

  /** The item markup with the given texts in the id, class, checkbox-attribute and label positions. */
  function Layout(id: string, completed: string, checked: string, title: string): string {
    Open + (id + (ClassAttr + (completed + (Checkbox + (checked + (Label + (title + Close)))))))
  }

  /** The item template with its four placeholders. */
  const DefaultTemplate := Layout(IdSlot, CompletedSlot, CheckedSlot, TitleSlot)

  /** The fragment of one todo: the four placeholders of `template` substituted in the order the template code uses. */
  function Fragment(template: string, t: Item): string {
    var completed := if t.completed then "completed" else "";
    var checked := if t.completed then "checked" else "";
    var a := ReplaceFirst(template, IdSlot, IntToString(t.id));
    var b := ReplaceFirst(a, TitleSlot, Escape(t.title));
    var c := ReplaceFirst(b, CompletedSlot, completed);
    ReplaceFirst(c, CheckedSlot, checked)
  }

  /** The fixed text of the template holds no brace, so no placeholder starts inside it. */
  lemma TemplateTextNoBrace()
    ensures '{' !in Open && '{' !in ClassAttr && '{' !in Checkbox && '{' !in Label
  {
    assert '{' !in ViewDiv && '{' !in Toggle;
  }

  lemma ReplaceId(id: string)
    ensures ReplaceFirst(DefaultTemplate, IdSlot, id) == Layout(id, CompletedSlot, CheckedSlot, TitleSlot)
  {
    TemplateTextNoBrace();
    var r := ClassAttr + (CompletedSlot + (Checkbox + (CheckedSlot + (Label + (TitleSlot + Close)))));
    ReplaceFirstSkip(Open, IdSlot + r, IdSlot, id);
    ReplaceFirstHere(IdSlot, r, id);
  }

  /** The title placeholder is found after the completed and checked placeholders, which are left alone. */
  lemma ReplaceTitle(id: string, title: string)
    requires '{' !in id
    ensures ReplaceFirst(Layout(id, CompletedSlot, CheckedSlot, TitleSlot), TitleSlot, title)
      == Layout(id, CompletedSlot, CheckedSlot, title)
  {
    TemplateTextNoBrace();
    var r6 := TitleSlot + Close;
    var r5 := Label + r6;
    var r4 := CheckedSlot + r5;
    var r3 := Checkbox + r4;
    var r2 := CompletedSlot + r3;
    var r1 := ClassAttr + r2;
    var r0 := id + r1;
    ReplaceFirstHere(TitleSlot, Close, title);
    ReplaceFirstSkip(Label, r6, TitleSlot, title);
    ReplaceFirstSkipSlot("checked", r5, TitleSlot, title);
    ReplaceFirstSkip(Checkbox, r4, TitleSlot, title);
    ReplaceFirstSkipSlot("completed", r3, TitleSlot, title);
    ReplaceFirstSkip(ClassAttr, r2, TitleSlot, title);
    ReplaceFirstSkip(id, r1, TitleSlot, title);
    ReplaceFirstSkip(Open, r0, TitleSlot, title);
  }

  lemma ReplaceCompleted(id: string, title: string, completed: string)
    requires '{' !in id
    ensures ReplaceFirst(Layout(id, CompletedSlot, CheckedSlot, title), CompletedSlot, completed)
      == Layout(id, completed, CheckedSlot, title)
  {
    TemplateTextNoBrace();
    var r2 := Checkbox + (CheckedSlot + (Label + (title + Close)));
    var r1 := ClassAttr + (CompletedSlot + r2);
    ReplaceFirstHere(CompletedSlot, r2, completed);
    ReplaceFirstSkip(ClassAttr, CompletedSlot + r2, CompletedSlot, completed);
    ReplaceFirstSkip(id, r1, CompletedSlot, completed);
    ReplaceFirstSkip(Open, id + r1, CompletedSlot, completed);
  }

  lemma ReplaceChecked(id: string, title: string, completed: string, checked: string)
    requires '{' !in id && '{' !in completed
    ensures ReplaceFirst(Layout(id, completed, CheckedSlot, title), CheckedSlot, checked)
      == Layout(id, completed, checked, title)
  {
    TemplateTextNoBrace();
    var r4 := Label + (title + Close);
    var r3 := Checkbox + (CheckedSlot + r4);
    var r2 := completed + r3;
    var r1 := ClassAttr + r2;
    ReplaceFirstHere(CheckedSlot, r4, checked);
    ReplaceFirstSkip(Checkbox, CheckedSlot + r4, CheckedSlot, checked);
    ReplaceFirstSkip(completed, r3, CheckedSlot, checked);
    ReplaceFirstSkip(ClassAttr, r2, CheckedSlot, checked);
    ReplaceFirstSkip(id, r1, CheckedSlot, checked);
    ReplaceFirstSkip(Open, id + r1, CheckedSlot, checked);
  }

  /**
   * The fragment of a todo: its id as decimal text, the class `completed` and the
   * attribute `checked` exactly when it is completed (both empty otherwise), and its
   * title escaped, whatever characters the title holds.
   */
  lemma FragmentLayout(t: Item)
    ensures var completed := if t.completed then "completed" else "";
      var checked := if t.completed then "checked" else "";
      Fragment(DefaultTemplate, t) == Layout(IntToString(t.id), completed, checked, Escape(t.title))
  {
    var id := IntToString(t.id);
    var completed := if t.completed then "completed" else "";
    var checked := if t.completed then "checked" else "";
    assert '{' !in id;
    ReplaceId(id);
    ReplaceTitle(id, Escape(t.title));
    ReplaceCompleted(id, Escape(t.title), completed);
    ReplaceChecked(id, Escape(t.title), completed, checked);
  }

  /** The pieces joined in order. */
  function Concat(parts: seq<string>): string {
    if parts == [] then "" else Concat(parts[..|parts| - 1]) + parts[|parts| - 1]
  }

  /** Joining two runs of pieces is joining each and putting the results side by side. */
  lemma {:induction false} ConcatAppend(a: seq<string>, b: seq<string>)
    ensures Concat(a + b) == Concat(a) + Concat(b)
    decreases |b|
  {
    if b == [] {
      assert a + b == a;
    } else {
      var b' := b[..|b| - 1];
      assert (a + b)[..|a + b| - 1] == a + b';
      ConcatAppend(a, b');
    }
  }

  /** The fragment of each todo, position for position. */
  function Fragments(template: string, items: seq<Item>): (r: seq<string>)
    ensures |r| == |items|
  {
    seq(|items|, k requires 0 <= k < |items| => Fragment(template, items[k]))
  }

  /** The rendered list: the fragments of the todos in order, the empty string for no todos. */
  function RenderList(template: string, items: seq<Item>): string {
    Concat(Fragments(template, items))
  }

  /** Rendering a concatenation is concatenating the renderings: the fragments follow the list order. */
  lemma RenderListConcat(template: string, a: seq<Item>, b: seq<Item>)
    ensures RenderList(template, a + b) == RenderList(template, a) + RenderList(template, b)
  {
    var fa, fb := Fragments(template, a), Fragments(template, b);
    forall k | 0 <= k < |a + b| ensures Fragments(template, a + b)[k] == (fa + fb)[k] {
      if k < |a| {
        assert (a + b)[k] == a[k];
      } else {
        assert (a + b)[k] == b[k - |a|];
      }
    }
    assert Fragments(template, a + b) == fa + fb;
    ConcatAppend(Fragments(template, a), Fragments(template, b));
  }

  /** One todo renders as its fragment. */
  lemma RenderListOne(template: string, t: Item)
    ensures RenderList(template, [t]) == Fragment(template, t)
  {
    var f := Fragments(template, [t]);
    assert f[0] == Fragment(template, t);
    assert f[..|f| - 1] == [];
    assert Concat(f) == Concat([]) + f[0];
    assert "" + f[0] == f[0];
  }

  /** Rendering one more todo appends its fragment. */
  lemma RenderListSnoc(template: string, data: seq<Item>, i: nat)
    requires i < |data|
    ensures RenderList(template, data[..i + 1]) == RenderList(template, data[..i]) + Fragment(template, data[i])
  {
    assert data[..i + 1] == data[..i] + [data[i]];
    RenderListConcat(template, data[..i], [data[i]]);
    RenderListOne(template, data[i]);
  }

  /** The list renderer, holding the item template it fills in. */
  class Template {
    const defaultTemplate: string

    constructor()
      ensures defaultTemplate == DefaultTemplate
    {
      defaultTemplate := DefaultTemplate;
    }

    /** `show`: appends the fragment of each todo, first to last, to an initially empty string. */
    method Show(data: seq<Item>) returns (view: string)
      ensures view == RenderList(defaultTemplate, data)
      ensures data == [] ==> view == ""
    {
      view := "";
      var i := 0;
      while i < |data|
        invariant i <= |data|
        invariant view == RenderList(defaultTemplate, data[..i])
      {
        RenderListSnoc(defaultTemplate, data, i);
        view := view + Fragment(defaultTemplate, data[i]);
        i := i + 1;
      }
      assert data[..i] == data;
    }
  }

  // ---------------------------------------------------------------------------
  // footer texts
  // ---------------------------------------------------------------------------

  /** Where each of four concatenated pieces sits in the whole. */
  lemma PiecesAt(a: string, b: string, c: string, d: string)
    ensures var r := a + b + c + d;
      && |r| == |a| + |b| + |c| + |d|
      && r[..|a|] == a && r[|a|..|a| + |b|] == b
      && r[|a| + |b|..|a| + |b| + |c|] == c && r[|r| - |d|..] == d
  {
  }

  /**
   * The counter: the number in a `<strong>` element, then `item left` for
   * exactly one todo and `items left` for any other number, zero included.
   */
  function ItemCounter(activeTodos: int): (r: string)
    ensures var n := IntToString(activeTodos);
      |r| == 27 + |n| + (if activeTodos == 1 then 0 else 1) && r[..8] == "<strong>" && r[8..8 + |n|] == n && r[8 + |n|..17 + |n|] == "</strong>"
    ensures activeTodos == 1 <==> r[|r| - 10..] == " item left"
    ensures activeTodos != 1 <==> r[|r| - 11..] == " items left"
  {
    var n := IntToString(activeTodos);
    var w := if activeTodos == 1 then " item left" else " items left";
    var r := "<strong>" + n + "</strong>" + w;
    PiecesAt("<strong>", n, "</strong>", w);
    assert r[|r| - |w| - 1] == '>' by {
      assert r[8 + |n|..17 + |n|][8] == '>';
    }
    assert r[|r| - 10] == w[|w| - 10];
    assert r[|r| - 11] == (if activeTodos == 1 then '>' else ' ');
    r
  }

  /** The clear button's text: `Clear completed` when some todo is completed, empty otherwise. */
  function ClearCompletedButton(completedTodos: int): (r: string)
    ensures r != "" <==> completedTodos > 0
    ensures r != "" ==> r == "Clear completed"
  {
    if completedTodos > 0 then "Clear completed" else ""
  }
}
