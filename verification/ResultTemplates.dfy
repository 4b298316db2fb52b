/** The templates that turn an answer into the value a module stores. */
module ResultTemplates {

  const VALUE := "{value}"
  const ROOT := "{project-root}"

  /** w in s */
  predicate Contains(s: string, w: string) {
    w <= s || (s != "" && Contains(s[1..], w))
  }

  /** template.replace("{value}", answer) */
  function Fill(template: string, answer: string): string {
    if VALUE <= template then answer + Fill(template[|VALUE|..], answer)
    else if template == "" then ""
    else [template[0]] + Fill(template[1..], answer)
  }

  /** An answer that names the project root has been through its template already. */
  function Apply(template: string, answer: string): string {
    if Contains(answer, ROOT) then answer else Fill(template, answer)
  }

  // ----- what searching and replacing mean -----

  /** The word stands at that place of the text. */
  predicate Occurs(s: string, w: string, i: nat) {
    i + |w| <= |s| && s[i..i + |w|] == w
  }

  lemma {:induction false} ContainsExactly(s: string, w: string)
    ensures Contains(s, w) <==> exists i: nat :: Occurs(s, w, i)
  {
    if w <= s {
      assert Occurs(s, w, 0);
    } else if s != "" {
      ContainsExactly(s[1..], w);
      if i: nat :| Occurs(s[1..], w, i) {
        assert Occurs(s, w, i + 1);
      }
      if i: nat :| Occurs(s, w, i) {
        assert i > 0 && Occurs(s[1..], w, i - 1);
      }
    }
  }

  /** The parts one after another, with the text between any two of them. */
  function Joined(parts: seq<string>, between: string): string {
    if parts == [] then ""
    else if |parts| == 1 then parts[0]
    else parts[0] + between + Joined(parts[1..], between)
  }

  /** The template, cut at every place for the answer. */
  ghost predicate IsCut(template: string, parts: seq<string>) {
    && parts != [] && template == Joined(parts, "{value}")
    && forall i, j: nat :: 0 <= i < |parts| ==> !Occurs(parts[i], "{value}", j)
  }

  /** The text is the cut template, joined by the answer. */
  ghost predicate FilledIn(template: string, answer: string, text: string) {
    exists parts: seq<string> :: IsCut(template, parts) && text == Joined(parts, answer)
  }

  /** One more character in front of the first part. */
  lemma JoinedPrefixed(c: char, parts: seq<string>, between: string)
    requires parts != []
    ensures Joined([[c] + parts[0]] + parts[1..], between) == [c] + Joined(parts, between)
  {
    var first := [c] + parts[0];
    assert ([first] + parts[1..])[1..] == parts[1..];
    if |parts| > 1 {
      var rest := Joined(parts[1..], between);
      assert first + between + rest == [c] + (parts[0] + between + rest);
    }
  }

  lemma JoinedAfter(parts: seq<string>, between: string)
    requires parts != []
    ensures Joined([""] + parts, between) == between + Joined(parts, between)
  {
    assert ([""] + parts)[1..] == parts;
    assert "" + between == between;
  }

  /** A place for the answer does not begin with the first character, so none is new. */
  lemma PrefixedHasNone(c: char, part: string, rest: string)
    requires forall j: nat :: !Occurs(part, VALUE, j)
    requires part <= rest && !(VALUE <= [c] + rest)
    ensures forall j: nat :: !Occurs([c] + part, VALUE, j)
  {
    forall j: nat
      ensures !Occurs([c] + part, VALUE, j)
    {
      if j == 0 {
        assert [c] + part <= [c] + rest;
      } else {
        assert !Occurs(part, VALUE, j - 1);
        assert j + |VALUE| <= |part| + 1 ==> ([c] + part)[j..j + |VALUE|] == part[j - 1..j - 1 + |VALUE|];
      }
    }
  }

  lemma FirstPartIsPrefix(parts: seq<string>, between: string)
    requires parts != []
    ensures parts[0] <= Joined(parts, between)
  {
  }

  lemma CutAtValue(rest: string, parts: seq<string>)
    requires IsCut(rest, parts)
    ensures IsCut(VALUE + rest, [""] + parts)
  {
    JoinedAfter(parts, VALUE);
  }

  lemma CutAtChar(c: char, rest: string, parts: seq<string>)
    requires IsCut(rest, parts) && !(VALUE <= [c] + rest)
    ensures IsCut([c] + rest, [[c] + parts[0]] + parts[1..])
  {
    JoinedPrefixed(c, parts, VALUE);
    FirstPartIsPrefix(parts, VALUE);
    PrefixedHasNone(c, parts[0], rest);
  }

  /** Filling in joins the parts of the template by the answer. */
  lemma {:induction false} Cut(template: string, answer: string) returns (parts: seq<string>)
    ensures IsCut(template, parts) && Fill(template, answer) == Joined(parts, answer)
    decreases |template|
  {
    if VALUE <= template {
      var rest := template[|VALUE|..];
      var tail := Cut(rest, answer);
      CutAtValue(rest, tail);
      JoinedAfter(tail, answer);
      assert template == VALUE + rest;
      parts := [""] + tail;
    } else if template == "" {
      parts := [""];
    } else {
      var tail := Cut(template[1..], answer);
      assert template == [template[0]] + template[1..];
      CutAtChar(template[0], template[1..], tail);
      JoinedPrefixed(template[0], tail, answer);
      parts := [[template[0]] + tail[0]] + tail[1..];
    }
  }

  /** Filling in replaces every place for the answer, and copies the rest. */
  lemma FillExactly(template: string, answer: string)
    ensures FilledIn(template, answer, Fill(template, answer))
  {
    var parts := Cut(template, answer);
  }

  // ----- applying a template again -----

  lemma {:induction false} ContainsAfter(p: string, s: string, w: string)
    requires Contains(s, w)
    ensures Contains(p + s, w)
  {
    if p == "" {
      assert p + s == s;
    } else {
      ContainsAfter(p[1..], s, w);
      assert (p + s)[1..] == p[1..] + s;
    }
  }

  /** Text without an opening brace is copied. */
  lemma {:induction false} FillCopies(plain: string, rest: string, answer: string)
    requires '{' !in plain
    ensures Fill(plain + rest, answer) == plain + Fill(rest, answer)
  {
    if plain == "" {
      assert plain + rest == rest;
    } else {
      assert (plain + rest)[0] == plain[0] && (plain + rest)[1..] == plain[1..] + rest;
      assert VALUE[0] == '{';
      FillCopies(plain[1..], rest, answer);
      assert plain == [plain[0]] + plain[1..];
    }
  }

  /** An occurrence of the project root does not begin inside plain text. */
  lemma {:induction false} RootAfterPlain(plain: string, rest: string)
    requires '{' !in plain && Contains(plain + rest, ROOT)
    ensures Contains(rest, ROOT)
  {
    if plain == "" {
      assert plain + rest == rest;
    } else {
      assert (plain + rest)[0] == plain[0] && (plain + rest)[1..] == plain[1..] + rest;
      assert ROOT[0] == '{';
      RootAfterPlain(plain[1..], rest);
    }
  }

  /** Filling a template in leaves the project root it names in place. */
  lemma {:induction false} FillKeepsRoot(template: string, answer: string)
    requires Contains(template, ROOT)
    ensures Contains(Fill(template, answer), ROOT)
    decreases |template|
  {
    var tail := template[1..];
    if VALUE <= template {
      var rest := template[|VALUE|..];
      assert template[1] == VALUE[1] && ROOT[1] != VALUE[1];
      assert !(ROOT <= template);
      assert tail == VALUE[1..] + rest;
      RootAfterPlain(VALUE[1..], rest);
      FillKeepsRoot(rest, answer);
      ContainsAfter(answer, Fill(rest, answer), ROOT);
    } else if ROOT <= template {
      var rest := template[|ROOT|..];
      assert tail == ROOT[1..] + rest;
      FillCopies(ROOT[1..], rest, answer);
      assert Fill(template, answer) == ROOT + Fill(rest, answer);
    } else {
      FillKeepsRoot(tail, answer);
      assert Fill(template, answer)[1..] == Fill(tail, answer);
    }
  }

  /** A template that names the project root is applied once, however often it is applied. */
  lemma RootedTemplateOnce(template: string, answer: string)
    requires Contains(template, ROOT)
    ensures Apply(template, Apply(template, answer)) == Apply(template, answer)
  {
    FillKeepsRoot(template, answer);
  }

  lemma {:induction false} FillWithoutValue(template: string, answer: string)
    requires !Contains(template, VALUE)
    ensures Fill(template, answer) == template
  {
    if template != "" {
      FillWithoutValue(template[1..], answer);
    }
  }

  /** A longer answer gives a longer text. */
  lemma {:induction false} FillLength(template: string, x: string, y: string)
    requires |x| <= |y|
    ensures |Fill(template, x)| <= |Fill(template, y)|
    ensures |x| < |y| && Contains(template, VALUE) ==> |Fill(template, x)| < |Fill(template, y)|
  {
    if VALUE <= template {
      FillLength(template[|VALUE|..], x, y);
    } else if template != "" {
      FillLength(template[1..], x, y);
    }
  }

  /** The answer can be read off the text. */
  lemma {:induction false} FillInjective(template: string, x: string, y: string)
    requires Contains(template, VALUE) && Fill(template, x) == Fill(template, y)
    ensures x == y
  {
    if |x| <= |y| { FillLength(template, x, y); } else { FillLength(template, y, x); }
    if VALUE <= template {
      var rest := template[|VALUE|..];
      assert x == (x + Fill(rest, x))[..|x|];
      assert y == (y + Fill(rest, y))[..|y|];
    } else {
      assert Fill(template, x)[1..] == Fill(template[1..], x);
      assert Fill(template, y)[1..] == Fill(template[1..], y);
      FillInjective(template[1..], x, y);
    }
  }

  /**
   * Applying a template to its own result changes nothing exactly if the answer or the result names
   * the project root, or the template has no place for an answer or leaves the answer as it is.
   */
  lemma ApplyTwice(template: string, answer: string)
    ensures var once := Apply(template, answer);
      Apply(template, once) == once <==>
      Contains(once, ROOT) || !Contains(template, VALUE) || once == answer
  {
    var once := Apply(template, answer);
    if !Contains(once, ROOT) {
      if !Contains(template, VALUE) {
        FillWithoutValue(template, answer);
        FillWithoutValue(template, once);
      } else if Fill(template, once) == once {
        FillInjective(template, once, answer);
      }
    }
  }
}
