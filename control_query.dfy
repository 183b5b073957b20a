/** XPath unions: the text between `|` operators, with surrounding
    whitespace dropped, as the browser reads it. */
module XPathUnion {
  import opened Py

  /** The alternatives of an XPath union: the text between the `|`
      operators, with the surrounding whitespace dropped. */
  function Alternatives(q: string): seq<string> {
    StripAll(SplitOn(q, '|'))
  }

  function StripAll(parts: seq<string>): (r: seq<string>)
    ensures |r| == |parts|
  {
    if parts == [] then [] else [Strip(parts[0])] + StripAll(parts[1..])
  }

  /** A path that can stand between `|` operators. */
  predicate Alternative(p: string) {
    p != [] && '|' !in p && !IsSpace(p[0]) && !IsSpace(p[|p| - 1])
  }

  /** Joining alternatives with `" | "` and splitting at the bars gives them
      back. */
  lemma {:induction false} AlternativesOfJoin(paths: seq<string>, lead: string)
    requires |paths| >= 1 && forall k :: 0 <= k < |paths| ==> Alternative(paths[k])
    requires lead == "" || lead == " "
    ensures Alternatives(lead + Join(paths, " | ")) == paths
    decreases |paths|
  {
    if |paths| == 1 {
      AlternativesOfOne(paths[0], lead);
    } else {
      AlternativesOfJoin(paths[1..], " ");
      AlternativesStep(paths, lead);
    }
  }

  lemma AlternativesOfOne(p: string, lead: string)
    requires Alternative(p)
    requires lead == "" || lead == " "
    ensures Alternatives(lead + Join([p], " | ")) == [p]
  {
    SplitOnPiece(lead + p, '|', "");
    StripPadded(lead, p, "");
    assert lead + p + "" == lead + p;
    assert StripAll([lead + p]) == [p];
  }

  lemma AlternativesStep(paths: seq<string>, lead: string)
    requires |paths| >= 2 && Alternative(paths[0])
    requires lead == "" || lead == " "
    requires Alternatives(" " + Join(paths[1..], " | ")) == paths[1..]
    ensures Alternatives(lead + Join(paths, " | ")) == paths
  {
    SplitStep(paths, lead);
    StripPadded(lead, paths[0], " ");
    AlternativesCons(lead + Join(paths, " | "), lead + paths[0] + " ", " " + Join(paths[1..], " | "), paths);
  }

  /** When the first bar of `whole` comes right after `first`, its
      alternatives are `first` stripped followed by those of `tail`. */
  lemma AlternativesCons(whole: string, first: string, tail: string, alts: seq<string>)
    requires SplitOn(whole, '|') == [first] + SplitOn(tail, '|')
    requires alts != [] && Strip(first) == alts[0] && Alternatives(tail) == alts[1..]
    ensures Alternatives(whole) == alts
  {
    StripAllCons(first, SplitOn(tail, '|'));
    assert [alts[0]] + alts[1..] == alts;
  }

  lemma StripAllCons(part: string, parts: seq<string>)
    ensures StripAll([part] + parts) == [Strip(part)] + StripAll(parts)
  {
    assert ([part] + parts)[1..] == parts;
  }

  /** The first alternative splits off at the first bar. */
  lemma SplitStep(paths: seq<string>, lead: string)
    requires |paths| >= 2 && Alternative(paths[0])
    requires lead == "" || lead == " "
    ensures SplitOn(lead + Join(paths, " | "), '|')
      == [lead + paths[0] + " "] + SplitOn(" " + Join(paths[1..], " | "), '|')
  {
    var p, rest := paths[0], paths[1..];
    assert Join(paths, " | ") == p + " | " + Join(rest, " | ");
    BarAfterPath(lead, p, Join(rest, " | "));
    SplitOnPiece(lead + p + " ", '|', " " + Join(rest, " | "));
  }

  lemma BarAfterPath(lead: string, p: string, j: string)
    ensures lead + (p + " | " + j) == (lead + p + " ") + ['|'] + (" " + j)
  {
  }
}

/** The XPath query of WCAG 1.4.11 for the form controls on a page: one
    location path per kind of control, joined into a union. */
module ControlQuery {
  import opened Py
  import opened XPathUnion

  /** The `type` values of `input` elements that draw a control. */
  const InputTypes: seq<string> := [
    "text", "password", "email", "search", "url", "number", "tel", "date", "time",
    "datetime-local", "month", "week", "range", "submit", "reset", "button", "file",
    "checkbox", "radio"]

  /** The other elements that draw a control. */
  const OtherPaths: seq<string> := ["//button", "//option", "//textarea", "//datalists"]

  function InputPath(t: string): string {
    "//input[@type='" + t + "']"
  }

  /** The location paths of `find_input_elements`: one per input type, in
      order, then the other controls. */
  function QueryPaths(): (paths: seq<string>)
    ensures |paths| == |InputTypes| + |OtherPaths| == 23
    ensures forall k :: 0 <= k < |InputTypes| ==> paths[k] == InputPath(InputTypes[k])
    ensures paths[|InputTypes|..] == OtherPaths
  {
    seq(|InputTypes|, k requires 0 <= k < |InputTypes| => InputPath(InputTypes[k])) + OtherPaths
  }

  /** The XPath union the browser evaluates. */
  function Query(): string {
    Join(QueryPaths(), " | ")
  }

  /** The union selects exactly the 23 paths, in order. */
  lemma QueryAlternatives()
    ensures Alternatives(Query()) == QueryPaths()
  {
    var paths := QueryPaths();
    forall k | 0 <= k < |paths|
      ensures Alternative(paths[k])
    {
      if k < |InputTypes| {
        InputPathAlternative(InputTypes[k]);
      } else {
        assert paths[k] in OtherPaths;
      }
    }
    assert Query() == "" + Join(paths, " | ");
    AlternativesOfJoin(paths, "");
  }

  lemma InputPathAlternative(t: string)
    requires t in InputTypes
    ensures Alternative(InputPath(t))
  {
    assert '|' !in t;
    var p := InputPath(t);
    assert p == "//input[@type='" + t + "']";
    assert p[0] == '/' && p[|p| - 1] == ']';
  }
}
