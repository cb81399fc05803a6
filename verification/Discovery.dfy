/** Image discovery: JSONPath templates evaluated over decoded documents, the results printed
    with spaces between them, and the text split again at spaces. */
module Discovery {
  import opened Strs

  datatype Json =
    | Null
    | Bool(value: bool)
    | Number(text: string)
    | Str(s: string)
    | Arr(items: seq<Json>)
    | Obj(fields: map<string, Json>)

  /** What the document reader hands over at each turn before the end of the stream. */
  datatype Event = ReadError | Undecodable | Doc(json: Json)

  datatype Step = Field(name: string) | Each

  /** A template that does not parse has no steps. */
  type Template = Option<seq<Step>>

  function Known(prefix: seq<string>, list: string): Template {
    Some(Fields(prefix) + [Field(list), Each, Field("image")])
  }

  function Fields(names: seq<string>): seq<Step> {
    seq(|names|, i requires 0 <= i < |names| => Field(names[i]))
  }

  /** Deployments and daemon sets, then pods. */
  const KNOWN_IMAGE_PATHS: seq<Template> := [
    Known(["spec", "template", "spec"], "initContainers"),
    Known(["spec", "template", "spec"], "containers"),
    Known(["spec"], "initContainers"),
    Known(["spec"], "containers")
  ]

  // ---------- Evaluation, with missing keys allowed ----------

  /** A field of every object that has it; anything else is passed over. */
  function EvalField(input: seq<Json>, name: string): seq<Json> {
    if input == [] then []
    else
      var found := if input[0].Obj? && name in input[0].fields then [input[0].fields[name]] else [];
      found + EvalField(input[1..], name)
  }

  /** The items of every array; null is passed over and anything else is an error. */
  function EvalEach(input: seq<Json>): Option<seq<Json>> {
    if input == [] then Some([])
    else if input[0].Null? then EvalEach(input[1..])
    else if input[0].Arr? then
      var rest :- EvalEach(input[1..]);
      Some(input[0].items + rest)
    else None
  }

  function Eval(input: seq<Json>, steps: seq<Step>): Option<seq<Json>>
    decreases |steps|
  {
    if steps == [] then Some(input)
    else match steps[0]
      case Field(name) => Eval(EvalField(input, name), steps[1..])
      case Each =>
        var items :- EvalEach(input);
        Eval(items, steps[1..])
  }

  // ---------- Printing and splitting ----------

  /** The text of a value: a string is its own text, the rest is the printer's affair. */
  function Text(j: Json, show: Json -> string): string {
    if j.Str? then j.s else show(j)
  }

  /** The results of a template with a space between each two. */
  function Printed(values: seq<Json>, show: Json -> string): string {
    if values == [] then ""
    else if |values| == 1 then Text(values[0], show)
    else Text(values[0], show) + [' '] + Printed(values[1..], show)
  }

  /** `strings.FieldsFunc` with the predicate "is a space". */
  function Words(s: string): seq<string> { WordsFrom(s, 0) }

  function WordsFrom(s: string, i: nat): seq<string>
    requires i <= |s|
    decreases |s| - i
  {
    var n := IndexFrom(s, ' ', i);
    if n == -1 then Run(s, i, |s|) else Then(Run(s, i, n), WordsFrom(s, n + 1))
  }

  function Then(first: seq<string>, rest: seq<string>): seq<string> { first + rest }

  function Run(s: string, i: nat, n: nat): seq<string>
    requires i <= n <= |s|
  {
    if i == n then [] else [s[i..n]]
  }

  /** `parseJSONPath`: None when the template does not parse or does not evaluate. */
  method ParseJsonPath(data: Json, template: Template, show: Json -> string) returns (matches: Option<seq<string>>)
    ensures matches == Matches(data, template, show)
  {
    if template.None? {
      return None;
    }
    var results := Eval([data], template.value);
    if results.None? {
      return None;
    }
    var buf := "";
    assert results.value[0..] == results.value;
    for i := 0 to |results.value|
      invariant Printed(results.value, show) == buf + Printed(results.value[i..], show)
    {
      var text := Text(results.value[i], show);
      if i != |results.value| - 1 {
        text := text + [' '];
      }
      PrintedStep(results.value, i, show);
      buf := buf + text;
    }
    assert results.value[|results.value|..] == [] && buf + "" == buf;
    matches := Some(Words(buf));
  }

  lemma PrintedStep(values: seq<Json>, i: nat, show: Json -> string)
    requires i < |values|
    ensures Printed(values[i..], show) ==
            Text(values[i], show) + (if i != |values| - 1 then [' '] else []) + Printed(values[i + 1..], show)
  {
    assert values[i..][0] == values[i];
    assert values[i..][1..] == values[i + 1..];
  }

  function Matches(data: Json, template: Template, show: Json -> string): Option<seq<string>> {
    var steps :- template;
    var values :- Eval([data], steps);
    Some(Words(Printed(values, show)))
  }

  // ---------- find ----------

  function DocMatches(data: Json, paths: seq<Template>, show: Json -> string): seq<string> {
    if paths == [] then []
    else
      var m := Matches(data, paths[|paths| - 1], show);
      DocMatches(data, paths[..|paths| - 1], show) + if m.Some? then m.value else []
  }

  function EventMatches(e: Event, paths: seq<Template>, show: Json -> string): seq<string> {
    if e.Doc? then DocMatches(e.json, paths, show) else []
  }

  function Found(events: seq<Event>, paths: seq<Template>, show: Json -> string): seq<string> {
    if events == [] then []
    else Found(events[..|events| - 1], paths, show) + EventMatches(events[|events| - 1], paths, show)
  }

  lemma Regroup(a: seq<string>, b: seq<string>, c: seq<string>)
    ensures a + (b + c) == (a + b) + c
  {
  }

  lemma DocMatchesStep(data: Json, paths: seq<Template>, k: nat, show: Json -> string)
    requires k < |paths|
    ensures var m := Matches(data, paths[k], show);
            DocMatches(data, paths[..k + 1], show) ==
            DocMatches(data, paths[..k], show) + if m.Some? then m.value else []
  {
    assert paths[..k + 1][..k] == paths[..k];
  }

  lemma FoundStep(events: seq<Event>, i: nat, paths: seq<Template>, show: Json -> string)
    requires i < |events|
    ensures Found(events[..i + 1], paths, show) ==
            Found(events[..i], paths, show) + EventMatches(events[i], paths, show)
  {
    assert events[..i + 1][..i] == events[..i];
  }

  /** Reads documents to the end of the stream; a document that cannot be read or decoded is
      skipped, and so is a template that fails on a document. */
  method Find(events: seq<Event>, paths: seq<Template>, show: Json -> string) returns (pathMatches: seq<string>)
    ensures pathMatches == Found(events, paths, show)
  {
    pathMatches := [];
    for i := 0 to |events|
      invariant pathMatches == Found(events[..i], paths, show)
    {
      FoundStep(events, i, paths, show);
      if events[i].Doc? {
        var obj := events[i].json;
        var before := pathMatches;
        for k := 0 to |paths|
          invariant pathMatches == before + DocMatches(obj, paths[..k], show)
        {
          DocMatchesStep(obj, paths, k, show);
          var r := ParseJsonPath(obj, paths[k], show);
          if r.Some? {
            Regroup(before, DocMatches(obj, paths[..k], show), r.value);
            pathMatches := pathMatches + r.value;
          }
        }
        assert paths[..|paths|] == paths;
      }
    }
    assert events[..|events|] == events;
  }

  // ---------- Splitting is exact ----------

  /** `s` stands at the end of `whole`, from `d` on. */
  predicate Trails(s: string, whole: string, d: nat) {
    |whole| == d + |s| && forall k | 0 <= k < |s| :: whole[d + k] == s[k]
  }

  lemma RunTrail(s: string, whole: string, d: nat, i: nat, n: nat)
    requires Trails(s, whole, d) && i <= n <= |s|
    ensures Run(whole, d + i, d + n) == Run(s, i, n)
  {
    assert whole[d + i..d + n] == s[i..n];
  }

  lemma IndexFromTrail(s: string, whole: string, d: nat, i: nat)
    requires Trails(s, whole, d) && i <= |s|
    ensures var n := IndexFrom(s, ' ', i);
            IndexFrom(whole, ' ', d + i) == if n == -1 then -1 else d + n
  {
    var n, m := IndexFrom(s, ' ', i), IndexFrom(whole, ' ', d + i);
    if n >= 0 {
      assert whole[d + n] == ' ';
    }
    if m >= 0 {
      assert whole[d + (m - d)] == s[m - d];
    }
  }

  lemma WordsUnfold(s: string, i: nat, n: nat, more: seq<string>)
    requires i <= |s| && IndexFrom(s, ' ', i) == n && WordsFrom(s, n + 1) == more
    ensures WordsFrom(s, i) == Then(Run(s, i, n), more)
  {
  }

  lemma WordsUnfoldLast(s: string, i: nat)
    requires i <= |s| && IndexFrom(s, ' ', i) == -1
    ensures WordsFrom(s, i) == Run(s, i, |s|)
  {
  }

  lemma SameWords(s: string, i: nat, n: nat, whole: string, j: nat, m: nat, more: seq<string>)
    requires i <= |s| && IndexFrom(s, ' ', i) == n && WordsFrom(s, n + 1) == more
    requires j <= |whole| && IndexFrom(whole, ' ', j) == m && WordsFrom(whole, m + 1) == more
    requires Run(s, i, n) == Run(whole, j, m)
    ensures WordsFrom(s, i) == WordsFrom(whole, j)
  {
    WordsUnfold(s, i, n, more);
    WordsUnfold(whole, j, m, more);
  }

  predicate SameFrom(s: string, whole: string, d: nat, i: nat) {
    i <= |s| && d + i <= |whole| && WordsFrom(whole, d + i) == WordsFrom(s, i)
  }

  lemma WordsTrailEnd(s: string, whole: string, d: nat, i: nat)
    requires Trails(s, whole, d) && i <= |s| && IndexFrom(s, ' ', i) == -1
    ensures SameFrom(s, whole, d, i)
  {
    IndexFromTrail(s, whole, d, i);
    RunTrail(s, whole, d, i, |s|);
    WordsUnfoldLast(s, i);
    WordsUnfoldLast(whole, d + i);
  }

  lemma WordsTrailStep(s: string, whole: string, d: nat, i: nat, n: nat)
    requires Trails(s, whole, d) && i <= |s| && IndexFrom(s, ' ', i) == n && SameFrom(s, whole, d, n + 1)
    ensures SameFrom(s, whole, d, i)
  {
    IndexFromTrail(s, whole, d, i);
    RunTrail(s, whole, d, i, n);
    SameWords(s, i, n, whole, d + i, d + n, WordsFrom(s, n + 1));
  }

  lemma {:induction false} WordsOfTrail(s: string, whole: string, d: nat, i: nat)
    requires Trails(s, whole, d) && i <= |s|
    ensures SameFrom(s, whole, d, i)
    decreases |s| - i
  {
    var n := IndexFrom(s, ' ', i);
    if n == -1 {
      WordsTrailEnd(s, whole, d, i);
    } else {
      WordsOfTrail(s, whole, d, n + 1);
      WordsTrailStep(s, whole, d, i, n);
    }
  }

  /** `a` and then a space stand at the front of `whole`. */
  predicate Leads(a: string, whole: string) {
    |a| < |whole| && whole[|a|] == ' ' && forall k | 0 <= k < |a| :: whole[k] == a[k]
  }

  lemma IndexFromLead(a: string, whole: string, i: nat)
    requires Leads(a, whole) && i <= |a|
    ensures IndexFrom(whole, ' ', i) == if IndexFrom(a, ' ', i) == -1 then |a| else IndexFrom(a, ' ', i)
  {
    var n, m := IndexFrom(a, ' ', i), IndexFrom(whole, ' ', i);
    if n >= 0 {
      assert whole[n] == ' ';
    }
    if 0 <= m < |a| {
      assert a[m] == ' ';
    }
  }

  lemma RunLead(a: string, whole: string, i: nat, n: nat)
    requires Leads(a, whole) && i <= n <= |a|
    ensures Run(whole, i, n) == Run(a, i, n)
  {
    assert whole[i..n] == a[i..n];
  }

  lemma WordsLeadEnd(a: string, i: nat, whole: string, tail: seq<string>)
    requires Leads(a, whole) && i <= |a| && IndexFrom(a, ' ', i) == -1 && WordsFrom(whole, |a| + 1) == tail
    ensures WordsFrom(whole, i) == WordsFrom(a, i) + tail
  {
    IndexFromLead(a, whole, i);
    RunLead(a, whole, i, |a|);
    WordsUnfoldLast(a, i);
    WordsUnfold(whole, i, |a|, tail);
  }

  lemma WordsLeadStep(a: string, i: nat, n: nat, whole: string, more: seq<string>, tail: seq<string>)
    requires Leads(a, whole) && i <= |a| && IndexFrom(a, ' ', i) == n
    requires WordsFrom(a, n + 1) == more && WordsFrom(whole, n + 1) == more + tail
    ensures WordsFrom(whole, i) == WordsFrom(a, i) + tail
  {
    IndexFromLead(a, whole, i);
    RunLead(a, whole, i, n);
    WordsUnfold(a, i, n, more);
    WordsUnfold(whole, i, n, more + tail);
    Regroup(Run(a, i, n), more, tail);
  }

  lemma {:induction false} WordsOfLead(a: string, i: nat, whole: string, tail: seq<string>)
    requires Leads(a, whole) && i <= |a| && WordsFrom(whole, |a| + 1) == tail
    ensures WordsFrom(whole, i) == WordsFrom(a, i) + tail
    decreases |a| - i
  {
    var n := IndexFrom(a, ' ', i);
    if n == -1 {
      WordsLeadEnd(a, i, whole, tail);
    } else {
      WordsOfLead(a, n + 1, whole, tail);
      WordsLeadStep(a, i, n, whole, WordsFrom(a, n + 1), tail);
    }
  }

  lemma WordsOfConcat(a: string, b: string)
    ensures Words(a + [' '] + b) == Words(a) + Words(b)
  {
    var whole := a + [' '] + b;
    WordsOfTrail(b, whole, |a| + 1, 0);
    WordsOfLead(a, 0, whole, Words(b));
  }

  function AllWords(values: seq<Json>, show: Json -> string): seq<string> {
    if values == [] then [] else Words(Text(values[0], show)) + AllWords(values[1..], show)
  }

  /** Whatever the texts, splitting what was printed gives each text's own words in order: the
      separators neither join nor break anything. */
  lemma {:induction false} WordsOfPrinted(values: seq<Json>, show: Json -> string)
    ensures Words(Printed(values, show)) == AllWords(values, show)
  {
    if |values| == 1 {
      assert AllWords(values, show) == Words(Text(values[0], show)) + AllWords([], show);
    } else if |values| > 1 {
      WordsOfPrinted(values[1..], show);
      WordsOfConcat(Text(values[0], show), Printed(values[1..], show));
    }
  }

  predicate Word(s: string) { s != "" && Lacks(s, ' ') }

  predicate Blank(s: string) { forall i | 0 <= i < |s| :: s[i] == ' ' }

  /** Words with blanks around them: pads[0] words[0] pads[1] ... words[n-1] pads[n]. */
  function Weave(pads: seq<string>, words: seq<string>): string
    requires |pads| == |words| + 1
  {
    if words == [] then pads[0] else pads[0] + words[0] + Weave(pads[1..], words[1..])
  }

  /** Pads are blank, and those between two words are not empty: every word is maximal. */
  predicate Padded(pads: seq<string>, words: seq<string>) {
    && |pads| == |words| + 1
    && (forall i | 0 <= i < |pads| :: Blank(pads[i]))
    && (forall i | 0 < i < |words| :: pads[i] != "")
    && (forall i | 0 <= i < |words| :: Word(words[i]))
  }

  lemma {:induction false} WordsSkipBlank(pad: string, s: string)
    requires Blank(pad)
    ensures Words(pad + s) == Words(s)
  {
    if pad == "" {
      assert pad + s == s;
    } else {
      WordsSkipBlank(pad[1..], s);
      WordsSkipSpace(pad + s, pad[1..] + s);
    }
  }

  lemma WordsSkipSpace(s: string, rest: string)
    requires s == [' '] + rest
    ensures Words(s) == Words(rest)
  {
    assert s == "" + [' '] + rest;
    WordsOfConcat("", rest);
  }

  /** The result of splitting is the only decomposition of a text into maximal space-free runs. */
  lemma {:induction false} WordsAreTheRuns(pads: seq<string>, words: seq<string>)
    requires Padded(pads, words)
    ensures Words(Weave(pads, words)) == words
    decreases |words|
  {
    if words == [] {
      WordsSkipBlank(pads[0], "");
      assert pads[0] + "" == pads[0];
    } else {
      var rest := Weave(pads[1..], words[1..]);
      assert Padded(pads[1..], words[1..]) by {
        assert forall i | 0 <= i < |pads[1..]| :: pads[1..][i] == pads[i + 1];
      }
      WordsAreTheRuns(pads[1..], words[1..]);
      assert Weave(pads, words) == pads[0] + (words[0] + rest);
      WordsSkipBlank(pads[0], words[0] + rest);
      FirstWord(words[0], pads[1], rest, words[1..]);
      assert words == [words[0]] + words[1..];
    }
  }

  lemma WordIsItsWords(word: string)
    requires Word(word)
    ensures Words(word) == [word]
  {
    assert word[0..|word|] == word;
  }

  lemma FirstWord(word: string, pad: string, rest: string, more: seq<string>)
    requires Word(word) && Blank(pad) && Words(rest) == more
    requires |pad| <= |rest| && rest[..|pad|] == pad
    requires pad == "" ==> rest == ""
    ensures Words(word + rest) == [word] + more
  {
    WordIsItsWords(word);
    if pad == "" {
      assert word + rest == word;
    } else {
      var tail := rest[1..];
      assert rest[0] == rest[..|pad|][0] == ' ';
      assert rest == [' '] + tail;
      WordsSkipSpace(rest, tail);
      assert word + rest == word + [' '] + tail;
      WordsOfConcat(word, tail);
    }
  }

  /** Every text has such a decomposition. */
  lemma {:induction false} EveryTextHasRuns(s: string) returns (pads: seq<string>, words: seq<string>)
    ensures Padded(pads, words) && Weave(pads, words) == s
    decreases |s|
  {
    var n := Index(s, ' ');
    if n == -1 {
      pads, words := OneRun(s);
    } else {
      var tail := s[n + 1..];
      var ps, ws := EveryTextHasRuns(tail);
      var spaced := [[' '] + ps[0]] + ps[1..];
      SpaceFirst(ps, ws, spaced);
      Cut(s, n);
      if n == 0 {
        pads, words := spaced, ws;
        assert s[..0] + [' '] + tail == [' '] + tail;
      } else {
        pads, words := [""] + spaced, [s[..n]] + ws;
        WordFirst(spaced, ws, s[..n]);
        assert s[..n] + [' '] + tail == s[..n] + ([' '] + tail);
      }
    }
  }

  lemma OneRun(s: string) returns (pads: seq<string>, words: seq<string>)
    requires Lacks(s, ' ')
    ensures Padded(pads, words) && Weave(pads, words) == s
  {
    if s == "" {
      pads, words := [""], [];
    } else {
      pads, words := ["", ""], [s];
      assert pads[1..] == [""] && words[1..] == [];
      assert "" + s + "" == s;
    }
  }

  lemma SpaceFirst(pads: seq<string>, words: seq<string>, spaced: seq<string>)
    requires Padded(pads, words) && spaced == [[' '] + pads[0]] + pads[1..]
    ensures Padded(spaced, words) && Weave(spaced, words) == [' '] + Weave(pads, words)
  {
    assert forall i | 1 <= i < |pads| :: spaced[i] == pads[i];
    assert Blank(spaced[0]);
    if words != [] {
      assert spaced[1..] == pads[1..];
      SpaceOutside(pads[0], words[0], Weave(pads[1..], words[1..]));
    }
  }

  lemma SpaceOutside(pad: string, word: string, rest: string)
    ensures ([' '] + pad) + word + rest == [' '] + (pad + word + rest)
  {
  }

  lemma WordFirst(pads: seq<string>, words: seq<string>, word: string)
    requires Padded(pads, words) && pads[0] != "" && Word(word)
    ensures Padded([""] + pads, [word] + words)
    ensures Weave([""] + pads, [word] + words) == word + Weave(pads, words)
  {
    assert ([""] + pads)[1..] == pads && ([word] + words)[1..] == words;
    assert "" + word == word;
  }

  // ---------- Discovery is exact ----------

  /** Following field names down from a document; None when one is missing on the way. */
  function Descend(doc: Json, names: seq<string>): Option<Json> {
    if names == [] then Some(doc)
    else if doc.Obj? && names[0] in doc.fields then Descend(doc.fields[names[0]], names[1..])
    else None
  }

  /** The images of the list a path leads to: none when the list is missing or null, an error
      when it is not a list, and otherwise the `image` of every item that has one, in order. */
  function ImagesAt(doc: Json, names: seq<string>): Option<seq<Json>> {
    var list := Descend(doc, names);
    if list.None? || list.value.Null? then Some([])
    else if list.value.Arr? then Some(EvalField(list.value.items, "image"))
    else None
  }

  lemma {:induction false} EvalDescends(doc: Json, names: seq<string>, steps: seq<Step>)
    ensures var d := Descend(doc, names);
            Eval([doc], Fields(names) + steps) == Eval(if d.Some? then [d.value] else [], steps)
    decreases |names|
  {
    var all := Fields(names) + steps;
    if names == [] {
      assert all == steps;
    } else {
      assert all[0] == Field(names[0]);
      assert all[1..] == Fields(names[1..]) + steps;
      FieldOfOne(doc, names[0]);
      if doc.Obj? && names[0] in doc.fields {
        EvalDescends(doc.fields[names[0]], names[1..], steps);
      } else {
        EvalOfNothing(names[1..], steps);
      }
    }
  }

  lemma FieldOfOne(doc: Json, name: string)
    ensures EvalField([doc], name) == if doc.Obj? && name in doc.fields then [doc.fields[name]] else []
  {
    assert [doc][1..] == [];
  }

  lemma {:induction false} EvalOfNothing(names: seq<string>, steps: seq<Step>)
    ensures Eval([], Fields(names) + steps) == Eval([], steps)
    decreases |names|
  {
    var all := Fields(names) + steps;
    if names == [] {
      assert all == steps;
    } else {
      assert all[0] == Field(names[0]);
      assert all[1..] == Fields(names[1..]) + steps;
      EvalOfNothing(names[1..], steps);
    }
  }

  lemma EvalTail(input: seq<Json>)
    ensures Eval(input, [Each, Field("image")]) ==
            if EvalEach(input).Some? then Some(EvalField(EvalEach(input).value, "image")) else None
  {
    assert [Each, Field("image")][1..] == [Field("image")];
    assert [Field("image")][1..] == [];
  }

  function Joined(a: Option<seq<Json>>, b: Option<seq<Json>>): Option<seq<Json>> {
    if a.None? || b.None? then None else Some(a.value + b.value)
  }

  lemma RegroupValues(a: seq<Json>, b: seq<Json>, c: seq<Json>)
    ensures a + (b + c) == (a + b) + c
  {
  }

  lemma NothingFirst(rest: Option<seq<Json>>)
    ensures Joined(Some([]), rest) == rest
  {
    if rest.Some? {
      assert [] + rest.value == rest.value;
    }
  }

  lemma {:induction false} FieldDistributes(a: seq<Json>, b: seq<Json>, name: string)
    ensures EvalField(a + b, name) == EvalField(a, name) + EvalField(b, name)
  {
    if a == [] {
      assert a + b == b;
    } else {
      assert (a + b)[1..] == a[1..] + b;
      FieldDistributes(a[1..], b, name);
    }
  }

  lemma {:induction false} EachDistributes(a: seq<Json>, b: seq<Json>)
    ensures EvalEach(a + b) == Joined(EvalEach(a), EvalEach(b))
  {
    if a == [] {
      assert a + b == b;
      NothingFirst(EvalEach(b));
    } else {
      assert (a + b)[1..] == a[1..] + b;
      EachDistributes(a[1..], b);
      var more, rest := EvalEach(a[1..]), EvalEach(b);
      if a[0].Arr? && more.Some? && rest.Some? {
        RegroupValues(a[0].items, more.value, rest.value);
      }
    }
  }

  /** A template evaluates to its results on each value in turn, and to an error when it does so on one
      of them. */
  lemma {:induction false} EvalDistributes(a: seq<Json>, b: seq<Json>, steps: seq<Step>)
    ensures Eval(a + b, steps) == Joined(Eval(a, steps), Eval(b, steps))
    decreases |steps|
  {
    if steps != [] {
      match steps[0] {
        case Field(name) =>
          FieldDistributes(a, b, name);
          EvalDistributes(EvalField(a, name), EvalField(b, name), steps[1..]);
        case Each =>
          EachDistributes(a, b);
          if EvalEach(a).Some? && EvalEach(b).Some? {
            EvalDistributes(EvalEach(a).value, EvalEach(b).value, steps[1..]);
          }
      }
    }
  }

  lemma TemplateReadsImagesAt(doc: Json, prefix: seq<string>, list: string)
    ensures Eval([doc], Known(prefix, list).value) == ImagesAt(doc, prefix + [list])
  {
    var names, tail := prefix + [list], [Each, Field("image")];
    assert Known(prefix, list).value == Fields(names) + tail;
    EvalDescends(doc, names, tail);
    var d := Descend(doc, names);
    var input := if d.Some? then [d.value] else [];
    EvalTail(input);
    if d.Some? {
      assert [d.value][1..] == [];
      if d.value.Arr? {
        assert d.value.items + [] == d.value.items;
      }
    }
  }

  predicate HasField(j: Json, name: string) { j.Obj? && name in j.fields }

  /** `at` are the places of exactly the items that have a field, and `values` what they have there. */
  ghost predicate AreFields(items: seq<Json>, name: string, at: seq<nat>, values: seq<Json>) {
    && Increasing(at) && (forall i: nat :: i in at <==> i < |items| && HasField(items[i], name))
    && |values| == |at|
    && forall j | 0 <= j < |at| ::
         at[j] < |items| && HasField(items[at[j]], name) && values[j] == items[at[j]].fields[name]
  }

  lemma FieldsOneMore(items: seq<Json>, last: Json, name: string, at: seq<nat>, values: seq<Json>)
    requires AreFields(items, name, at, values)
    ensures HasField(last, name) ==> AreFields(items + [last], name, at + [|items|], values + [last.fields[name]])
    ensures !HasField(last, name) ==> AreFields(items + [last], name, at, values)
  {
    var more := items + [last];
    assert more[|items|] == last;
    assert forall j | 0 <= j < |at| :: at[j] in at;
    forall i: nat ensures i in at + [|items|] <==> i in at || i == |items| {
    }
  }

  /** The items that have a field, in order: which ones they are. */
  lemma {:induction false} FieldsStand(items: seq<Json>, name: string) returns (at: seq<nat>)
    ensures AreFields(items, name, at, EvalField(items, name))
  {
    if items == [] {
      at := [];
    } else {
      var n := |items| - 1;
      var front, last := items[..n], items[n];
      at := FieldsStand(front, name);
      assert items == front + [last];
      FieldsOneMore(front, last, name, at, EvalField(front, name));
      FieldDistributes(front, [last], name);
      FieldOfOne(last, name);
      if HasField(last, name) {
        at := at + [n];
      } else {
        assert EvalField(front, name) + [] == EvalField(front, name);
      }
    }
  }

  /** A known template reads the list it leads to: nothing when it is missing or null, an error when it
      is something else than a list, and otherwise the `image` of exactly the items that have one, in
      order. */
  lemma KnownTemplateReadsImages(doc: Json, prefix: seq<string>, list: string) returns (at: seq<nat>)
    ensures var results, found := Eval([doc], Known(prefix, list).value), Descend(doc, prefix + [list]);
            if found.None? || found.value.Null? then results == Some([])
            else if !found.value.Arr? then results == None
            else results.Some? && AreFields(found.value.items, "image", at, results.value)
  {
    TemplateReadsImagesAt(doc, prefix, list);
    var found := Descend(doc, prefix + [list]);
    at := FieldsStand(if found.Some? && found.value.Arr? then found.value.items else [], "image");
  }

  const KNOWN_LISTS: seq<seq<string>> := [
    ["spec", "template", "spec"] + ["initContainers"],
    ["spec", "template", "spec"] + ["containers"],
    ["spec"] + ["initContainers"],
    ["spec"] + ["containers"]
  ]

  /** The images of the known lists of a document, in list order, a list in error giving none. */
  function ImagesIn(doc: Json, lists: seq<seq<string>>): seq<Json> {
    if lists == [] then []
    else
      var last := ImagesAt(doc, lists[|lists| - 1]);
      ImagesIn(doc, lists[..|lists| - 1]) + if last.Some? then last.value else []
  }

  /** The images of a stream, in document order, a document in error giving none. */
  function ImagesOf(events: seq<Event>): seq<Json> {
    if events == [] then []
    else
      var e := events[|events| - 1];
      ImagesOf(events[..|events| - 1]) + if e.Doc? then ImagesIn(e.json, KNOWN_LISTS) else []
  }

  lemma {:induction false} AllWordsOfConcat(a: seq<Json>, b: seq<Json>, show: Json -> string)
    ensures AllWords(a + b, show) == AllWords(a, show) + AllWords(b, show)
  {
    if a == [] {
      assert a + b == b;
    } else {
      assert (a + b)[1..] == a[1..] + b;
      AllWordsOfConcat(a[1..], b, show);
      Regroup(Words(Text(a[0], show)), AllWords(a[1..], show), AllWords(b, show));
    }
  }

  lemma KnownPathsAreKnownLists()
    ensures |KNOWN_IMAGE_PATHS| == |KNOWN_LISTS|
    ensures forall k, doc | 0 <= k < |KNOWN_LISTS| ::
              KNOWN_IMAGE_PATHS[k].Some? && Eval([doc], KNOWN_IMAGE_PATHS[k].value) == ImagesAt(doc, KNOWN_LISTS[k])
  {
    forall k, doc | 0 <= k < |KNOWN_LISTS|
      ensures KNOWN_IMAGE_PATHS[k].Some? && Eval([doc], KNOWN_IMAGE_PATHS[k].value) == ImagesAt(doc, KNOWN_LISTS[k])
    {
      var prefix := if k < 2 then ["spec", "template", "spec"] else ["spec"];
      var list := if k == 0 || k == 2 then "initContainers" else "containers";
      TemplateReadsImagesAt(doc, prefix, list);
      assert KNOWN_LISTS[k] == prefix + [list];
      assert KNOWN_IMAGE_PATHS[k] == Known(prefix, list);
    }
  }

  lemma {:induction false} DocMatchesAreImages(doc: Json, k: nat, show: Json -> string)
    requires k <= |KNOWN_LISTS| && |KNOWN_IMAGE_PATHS| == |KNOWN_LISTS|
    ensures DocMatches(doc, KNOWN_IMAGE_PATHS[..k], show) == AllWords(ImagesIn(doc, KNOWN_LISTS[..k]), show)
  {
    if k > 0 {
      DocMatchesAreImages(doc, k - 1, show);
      DocMatchesStep(doc, KNOWN_IMAGE_PATHS, k - 1, show);
      ImagesInStep(doc, KNOWN_LISTS, k - 1);
      KnownPathsAreKnownLists();
      MatchesAreImages(doc, k - 1, show);
      var last := ImagesAt(doc, KNOWN_LISTS[k - 1]);
      AllWordsOfConcat(ImagesIn(doc, KNOWN_LISTS[..k - 1]), if last.Some? then last.value else [], show);
    }
  }

  lemma ImagesInStep(doc: Json, lists: seq<seq<string>>, k: nat)
    requires k < |lists|
    ensures var last := ImagesAt(doc, lists[k]);
            ImagesIn(doc, lists[..k + 1]) == ImagesIn(doc, lists[..k]) + if last.Some? then last.value else []
  {
    assert lists[..k + 1][..k] == lists[..k];
  }

  lemma MatchesAreImages(doc: Json, k: nat, show: Json -> string)
    requires k < |KNOWN_LISTS| && |KNOWN_IMAGE_PATHS| == |KNOWN_LISTS|
    ensures var m, images := Matches(doc, KNOWN_IMAGE_PATHS[k], show), ImagesAt(doc, KNOWN_LISTS[k]);
            m == if images.Some? then Some(AllWords(images.value, show)) else None
  {
    KnownPathsAreKnownLists();
    var images := ImagesAt(doc, KNOWN_LISTS[k]);
    if images.Some? {
      WordsOfPrinted(images.value, show);
    }
  }

  /** Over any stream, what is found is the words of the texts of the images of the known lists. */
  lemma {:induction false} FoundAreTheWords(events: seq<Event>, show: Json -> string)
    ensures Found(events, KNOWN_IMAGE_PATHS, show) == AllWords(ImagesOf(events), show)
  {
    if events != [] {
      var front, e := events[..|events| - 1], events[|events| - 1];
      FoundAreTheWords(front, show);
      if e.Doc? {
        KnownPathsAreKnownLists();
        DocMatchesAreImages(e.json, |KNOWN_LISTS|, show);
        assert KNOWN_IMAGE_PATHS[..|KNOWN_LISTS|] == KNOWN_IMAGE_PATHS;
        assert KNOWN_LISTS[..|KNOWN_LISTS|] == KNOWN_LISTS;
        AllWordsOfConcat(ImagesOf(front), ImagesIn(e.json, KNOWN_LISTS), show);
      } else {
        assert ImagesOf(front) + [] == ImagesOf(front);
      }
    }
  }

  // ---------- Where the images stand ----------

  /** A place in a stream: which document, which of the known lists, which item of it. */
  datatype Place = Place(doc: nat, list: nat, item: nat)

  predicate Before(a: Place, b: Place) {
    || a.doc < b.doc
    || (a.doc == b.doc && (a.list < b.list || (a.list == b.list && a.item < b.item)))
  }

  /** An object with an `image` stands there, in a list. */
  predicate HasImage(events: seq<Event>, p: Place) {
    && p.doc < |events| && events[p.doc].Doc? && p.list < |KNOWN_LISTS|
    && HasItem(Descend(events[p.doc].json, KNOWN_LISTS[p.list]), p.item)
  }

  predicate HasItem(list: Option<Json>, item: nat) {
    && list.Some? && list.value.Arr? && item < |list.value.items|
    && list.value.items[item].Obj? && "image" in list.value.items[item].fields
  }

  function ImageThere(events: seq<Event>, p: Place): Json
    requires HasImage(events, p)
  {
    Descend(events[p.doc].json, KNOWN_LISTS[p.list]).value.items[p.item].fields["image"]
  }

  predicate InOrder(places: seq<Place>) { forall i, j | 0 <= i < j < |places| :: Before(places[i], places[j]) }

  /** `places` are, in order, just those that `has` holds of, and `values` are what is there. */
  ghost predicate StandBy(has: Place -> bool, shows: (Place, Json) -> bool, places: seq<Place>, values: seq<Json>) {
    && InOrder(places) && (forall p :: p in places <==> has(p))
    && |values| == |places| && forall j | 0 <= j < |places| :: shows(places[j], values[j])
  }

  lemma StandTogether(first: Place -> bool, next: Place -> bool, both: Place -> bool, shows: (Place, Json) -> bool,
                      places: seq<Place>, values: seq<Json>, here: seq<Place>, images: seq<Json>)
    requires StandBy(first, shows, places, values) && StandBy(next, shows, here, images)
    requires forall p :: both(p) <==> first(p) || next(p)
    requires forall p, q | first(p) && next(q) :: Before(p, q)
    ensures StandBy(both, shows, places + here, values + images)
  {
    forall i, j | 0 <= i < |places| && 0 <= j < |here| ensures Before(places[i], here[j]) {
      assert places[i] in places && here[j] in here;
    }
    InOrderTogether(places, here);
    forall p ensures p in places + here <==> both(p) {
      assert p in places + here <==> p in places || p in here;
    }
    ShownTogether(shows, places, values, here, images);
  }

  lemma InOrderTogether(a: seq<Place>, b: seq<Place>)
    requires InOrder(a) && InOrder(b) && forall i, j | 0 <= i < |a| && 0 <= j < |b| :: Before(a[i], b[j])
    ensures InOrder(a + b)
  {
  }

  lemma ShownTogether(shows: (Place, Json) -> bool, a: seq<Place>, v: seq<Json>, b: seq<Place>, w: seq<Json>)
    requires |v| == |a| && forall j | 0 <= j < |a| :: shows(a[j], v[j])
    requires |w| == |b| && forall j | 0 <= j < |b| :: shows(b[j], w[j])
    ensures |v + w| == |a + b| && forall j | 0 <= j < |a + b| :: shows((a + b)[j], (v + w)[j])
  {
  }

  /** An image stands at a place, within the first `docs` documents and the first `lists` known lists of
      the next one. */
  predicate IsWithin(events: seq<Event>, docs: nat, lists: nat, p: Place) {
    HasImage(events, p) && (p.doc < docs || (p.doc == docs && p.list < lists))
  }

  predicate IsIn(events: seq<Event>, doc: nat, list: nat, p: Place) {
    HasImage(events, p) && p.doc == doc && p.list == list
  }

  predicate IsThere(events: seq<Event>, p: Place, value: Json) {
    HasImage(events, p) && value == ImageThere(events, p)
  }

  function Within(events: seq<Event>, docs: nat, lists: nat): Place -> bool { p => IsWithin(events, docs, lists, p) }

  function In(events: seq<Event>, doc: nat, list: nat): Place -> bool { p => IsIn(events, doc, list, p) }

  function There(events: seq<Event>): (Place, Json) -> bool { (p, value) => IsThere(events, p, value) }

  /** `values` are the images at `places`, and these are, in order, the places of all images there. */
  ghost predicate Stand(events: seq<Event>, docs: nat, lists: nat, places: seq<Place>, values: seq<Json>) {
    StandBy(Within(events, docs, lists), There(events), places, values)
  }

  lemma ItemsStand(events: seq<Event>, doc: nat, list: nat, items: seq<Json>, at: seq<nat>, values: seq<Json>)
    returns (places: seq<Place>)
    requires doc < |events| && events[doc].Doc? && list < |KNOWN_LISTS|
    requires Descend(events[doc].json, KNOWN_LISTS[list]) == Some(Arr(items)) && AreFields(items, "image", at, values)
    ensures StandBy(In(events, doc, list), There(events), places, values)
  {
    places := seq(|at|, j requires 0 <= j < |at| => Place(doc, list, at[j]));
    forall p ensures p in places <==> IsIn(events, doc, list, p) {
      if IsIn(events, doc, list, p) {
        assert HasField(items[p.item], "image") && p.item in at;
        var j :| 0 <= j < |at| && at[j] == p.item;
        assert places[j] == p;
      }
    }
  }

  /** The images of one list, standing at the next places. */
  lemma ListStands(events: seq<Event>, doc: nat, list: nat, places: seq<Place>, values: seq<Json>)
    returns (more: seq<Place>, images: seq<Json>)
    requires doc < |events| && events[doc].Doc? && list < |KNOWN_LISTS| && Stand(events, doc, list, places, values)
    ensures var there := ImagesAt(events[doc].json, KNOWN_LISTS[list]);
            images == values + if there.Some? then there.value else []
    ensures Stand(events, doc, list + 1, more, images)
  {
    var d := Descend(events[doc].json, KNOWN_LISTS[list]);
    if d.Some? && d.value.Arr? {
      var found := EvalField(d.value.items, "image");
      var at := FieldsStand(d.value.items, "image");
      var here := ItemsStand(events, doc, list, d.value.items, at, found);
      StandTogether(Within(events, doc, list), In(events, doc, list), Within(events, doc, list + 1), There(events),
                    places, values, here, found);
      more, images := places + here, values + found;
    } else {
      more, images := places, values;
      assert values + [] == values;
    }
  }

  lemma DocStandsStep(doc: Json, k: nat, values: seq<Json>, front: seq<Json>, images: seq<Json>)
    requires k < |KNOWN_LISTS| && front == values + ImagesIn(doc, KNOWN_LISTS[..k])
    requires var there := ImagesAt(doc, KNOWN_LISTS[k]); images == front + if there.Some? then there.value else []
    ensures images == values + ImagesIn(doc, KNOWN_LISTS[..k + 1])
  {
    ImagesInStep(doc, KNOWN_LISTS, k);
    var there := ImagesAt(doc, KNOWN_LISTS[k]);
    RegroupValues(values, ImagesIn(doc, KNOWN_LISTS[..k]), if there.Some? then there.value else []);
  }

  lemma {:induction false} DocStands(events: seq<Event>, doc: nat, k: nat, places: seq<Place>, values: seq<Json>)
    returns (more: seq<Place>, images: seq<Json>)
    requires doc < |events| && events[doc].Doc? && k <= |KNOWN_LISTS| && Stand(events, doc, 0, places, values)
    ensures images == values + ImagesIn(events[doc].json, KNOWN_LISTS[..k])
    ensures Stand(events, doc, k, more, images)
  {
    if k == 0 {
      more, images := places, values;
      assert values + [] == values;
    } else {
      var ps, vs := DocStands(events, doc, k - 1, places, values);
      more, images := ListStands(events, doc, k - 1, ps, vs);
      DocStandsStep(events[doc].json, k - 1, values, vs, images);
    }
  }

  lemma {:induction false} StreamStands(events: seq<Event>, n: nat) returns (places: seq<Place>, values: seq<Json>)
    requires n <= |events|
    ensures values == ImagesOf(events[..n]) && Stand(events, n, 0, places, values)
  {
    if n == 0 {
      places, values := [], [];
    } else {
      var m := n - 1;
      var ps, vs := StreamStands(events, m);
      assert events[..n][..m] == events[..m];
      if events[m].Doc? {
        places, values := DocStands(events, m, |KNOWN_LISTS|, ps, vs);
        assert KNOWN_LISTS[..|KNOWN_LISTS|] == KNOWN_LISTS;
      } else {
        places, values := ps, vs;
        assert vs + [] == vs;
      }
    }
  }

  /** Discovery is exact: over any stream, what is found is the words of the texts of the images that
      stand in the known lists, in document order, then list order and then item order, with repeats
      kept. A document or a list in error contributes nothing and affects no other. */
  lemma DiscoveryIsExact(events: seq<Event>, show: Json -> string) returns (places: seq<Place>, values: seq<Json>)
    ensures Stand(events, |events|, 0, places, values)
    ensures Found(events, KNOWN_IMAGE_PATHS, show) == AllWords(values, show)
  {
    places, values := StreamStands(events, |events|);
    assert events[..|events|] == events;
    FoundAreTheWords(events, show);
  }

  /** The `j`-th part that `at` cuts out of `all`. */
  predicate PartIs(all: seq<string>, at: seq<nat>, j: nat, words: seq<string>) {
    j + 1 < |at| && at[j] <= at[j + 1] <= |all| && all[at[j]..at[j + 1]] == words
  }

  /** `at` cuts `all` into the words of each text. */
  predicate CutInto(all: seq<string>, at: seq<nat>, values: seq<Json>, show: Json -> string) {
    && |at| == |values| + 1 && at[0] == 0 && at[|values|] == |all|
    && forall j | 0 <= j < |values| :: PartIs(all, at, j, Words(Text(values[j], show)))
  }

  lemma PartStays(all: seq<string>, at: seq<nat>, j: nat, words: seq<string>, more: seq<string>, end: nat)
    requires PartIs(all, at, j, words)
    ensures PartIs(all + more, at + [end], j, words)
  {
    assert (all + more)[at[j]..at[j + 1]] == all[at[j]..at[j + 1]];
  }

  lemma LastPart(all: seq<string>, at: seq<nat>, last: seq<string>)
    requires at != [] && at[|at| - 1] == |all|
    ensures PartIs(all + last, at + [|all| + |last|], |at| - 1, last)
  {
    assert (all + last)[|all|..] == last;
  }

  lemma {:induction false} WordsAreCut(values: seq<Json>, show: Json -> string) returns (at: seq<nat>)
    ensures CutInto(AllWords(values, show), at, values, show)
  {
    if values == [] {
      at := [0];
    } else {
      var n := |values| - 1;
      var front, words := values[..n], AllWords(values[..n], show);
      var before := WordsAreCut(front, show);
      var last := AllWords([values[n]], show);
      assert values == front + [values[n]];
      AllWordsOfConcat(front, [values[n]], show);
      assert last == Words(Text(values[n], show)) + AllWords([values[n]][1..], show);
      at := before + [|words| + |last|];
      LastPart(words, before, last);
      forall j | 0 <= j < n ensures PartIs(words + last, at, j, Words(Text(values[j], show))) {
        assert front[j] == values[j];
        PartStays(words, before, j, Words(Text(front[j], show)), last, |words| + |last|);
      }
    }
  }

  /** So each image is found in its turn, as often as it occurs: one that is a space-free string as
      itself, and any other as the words of its text. */
  lemma EachIsFoundInTurn(events: seq<Event>, show: Json -> string)
    returns (places: seq<Place>, values: seq<Json>, at: seq<nat>)
    ensures Stand(events, |events|, 0, places, values)
    ensures CutInto(Found(events, KNOWN_IMAGE_PATHS, show), at, values, show)
    ensures forall j | 0 <= j < |values| && values[j].Str? && Word(values[j].s) ::
              PartIs(Found(events, KNOWN_IMAGE_PATHS, show), at, j, [values[j].s])
  {
    places, values := DiscoveryIsExact(events, show);
    at := WordsAreCut(values, show);
    forall j | 0 <= j < |values| && values[j].Str? && Word(values[j].s)
      ensures PartIs(Found(events, KNOWN_IMAGE_PATHS, show), at, j, [values[j].s])
    {
      WordIsItsWords(values[j].s);
      assert PartIs(Found(events, KNOWN_IMAGE_PATHS, show), at, j, Words(Text(values[j], show)));
    }
  }

  // ---------- In terms of manifests ----------

  predicate FieldIs(j: Json, name: string, value: Json) { HasField(j, name) && j.fields[name] == value }

  /** The specification of a pod, or of the pods a workload makes. */
  ghost predicate IsPodSpec(doc: Json, spec: Json) {
    || FieldIs(doc, "spec", spec)
    || exists s, t :: FieldIs(doc, "spec", s) && FieldIs(s, "template", t) && FieldIs(t, "spec", spec)
  }

  predicate IsContainer(spec: Json, c: Json) {
    || (HasField(spec, "initContainers") && spec.fields["initContainers"].Arr?
        && c in spec.fields["initContainers"].items)
    || (HasField(spec, "containers") && spec.fields["containers"].Arr? && c in spec.fields["containers"].items)
  }

  /** The image of some container of some document. */
  ghost predicate NamesImage(events: seq<Event>, image: Json) {
    exists e, spec, c :: ContainerNames(events, e, spec, c, image)
  }

  ghost predicate ContainerNames(events: seq<Event>, e: Event, spec: Json, c: Json, image: Json) {
    e in events && e.Doc? && IsPodSpec(e.json, spec) && IsContainer(spec, c) && FieldIs(c, "image", image)
  }

  predicate SpaceFreeStrings(values: seq<Json>) {
    forall i | 0 <= i < |values| :: values[i].Str? && Lacks(values[i].s, ' ')
  }

  /** The non-empty strings among some values, in order. */
  function Strings(values: seq<Json>): seq<string> {
    if values == [] then []
    else (if values[0].Str? && values[0].s != "" then [values[0].s] else []) + Strings(values[1..])
  }

  lemma {:induction false} AllWordsOfStrings(values: seq<Json>, show: Json -> string)
    requires SpaceFreeStrings(values)
    ensures AllWords(values, show) == Strings(values)
  {
    if values != [] {
      AllWordsOfStrings(values[1..], show);
      if values[0].s != "" {
        WordIsItsWords(values[0].s);
      }
    }
  }

  lemma FieldDown(doc: Json, name: string, names: seq<string>)
    ensures Descend(doc, [name] + names) == if HasField(doc, name) then Descend(doc.fields[name], names) else None
  {
    assert ([name] + names)[1..] == names;
  }

  /** What stands in one list of a specification. */
  lemma ListOf(spec: Json, name: string)
    ensures Descend(spec, [name]) == if HasField(spec, name) then Some(spec.fields[name]) else None
  {
    assert [name] == [name] + [];
    FieldDown(spec, name, []);
  }

  lemma ListUnder(doc: Json, name: string)
    ensures Descend(doc, ["spec"] + [name]) ==
            if HasField(doc, "spec") then Descend(doc.fields["spec"], [name]) else None
    ensures Descend(doc, ["spec", "template", "spec"] + [name]) ==
            if HasField(doc, "spec") && HasField(doc.fields["spec"], "template")
               && HasField(doc.fields["spec"].fields["template"], "spec")
            then Descend(doc.fields["spec"].fields["template"].fields["spec"], [name]) else None
  {
    FieldDown(doc, "spec", [name]);
    assert ["spec", "template", "spec"] + [name] == ["spec"] + (["template"] + (["spec"] + [name]));
    FieldDown(doc, "spec", ["template"] + (["spec"] + [name]));
    if HasField(doc, "spec") {
      var s := doc.fields["spec"];
      FieldDown(s, "template", ["spec"] + [name]);
      if HasField(s, "template") {
        FieldDown(s.fields["template"], "spec", [name]);
      }
    }
  }

  lemma KnownListsAre()
    ensures |KNOWN_LISTS| == 4
    ensures KNOWN_LISTS[0] == ["spec", "template", "spec"] + ["initContainers"]
    ensures KNOWN_LISTS[1] == ["spec", "template", "spec"] + ["containers"]
    ensures KNOWN_LISTS[2] == ["spec"] + ["initContainers"] && KNOWN_LISTS[3] == ["spec"] + ["containers"]
  {
  }

  lemma PlaceIsContainer(events: seq<Event>, p: Place)
    requires HasImage(events, p)
    ensures NamesImage(events, ImageThere(events, p))
  {
    var doc := events[p.doc].json;
    KnownListsAre();
    var name := if p.list == 0 || p.list == 2 then "initContainers" else "containers";
    ListUnder(doc, name);
    var s := doc.fields["spec"];
    var spec := if p.list < 2 then s.fields["template"].fields["spec"] else s;
    ListOf(spec, name);
    if p.list < 2 {
      assert FieldIs(doc, "spec", s) && FieldIs(s, "template", s.fields["template"]);
    }
    var c := spec.fields[name].items[p.item];
    assert c in spec.fields[name].items;
    assert ContainerNames(events, events[p.doc], spec, c, ImageThere(events, p));
  }

  lemma ContainerHasPlace(events: seq<Event>, e: Event, spec: Json, c: Json, image: Json) returns (p: Place)
    requires ContainerNames(events, e, spec, c, image)
    ensures HasImage(events, p) && ImageThere(events, p) == image
  {
    var doc, inits := e.json, HasField(spec, "initContainers") && spec.fields["initContainers"].Arr?
                              && c in spec.fields["initContainers"].items;
    var name := if inits then "initContainers" else "containers";
    var i :| 0 <= i < |events| && events[i] == e;
    var j :| 0 <= j < |spec.fields[name].items| && spec.fields[name].items[j] == c;
    KnownListsAre();
    ListUnder(doc, name);
    ListOf(spec, name);
    p := Place(i, if FieldIs(doc, "spec", spec) then if inits then 2 else 3 else if inits then 0 else 1, j);
  }

  /** The images found are exactly those of the containers of pods and workloads. */
  lemma FoundAreContainers(events: seq<Event>, places: seq<Place>, values: seq<Json>, image: Json)
    requires Stand(events, |events|, 0, places, values)
    ensures image in values <==> NamesImage(events, image)
  {
    if image in values {
      var j :| 0 <= j < |values| && values[j] == image;
      PlaceIsContainer(events, places[j]);
    }
    if e, spec, c :| ContainerNames(events, e, spec, c, image) {
      var p := ContainerHasPlace(events, e, spec, c, image);
      assert p in places;
      var j :| 0 <= j < |places| && places[j] == p;
      assert values[j] == image;
    }
  }

  /** On streams whose containers' images are all space-free strings, exactly the non-empty ones are
      found. */
  lemma SpaceFreeImagesAreFound(events: seq<Event>, show: Json -> string)
    returns (places: seq<Place>, values: seq<Json>)
    requires forall image | NamesImage(events, image) :: image.Str? && Lacks(image.s, ' ')
    ensures Stand(events, |events|, 0, places, values)
    ensures Found(events, KNOWN_IMAGE_PATHS, show) == Strings(values)
  {
    places, values := DiscoveryIsExact(events, show);
    forall i | 0 <= i < |values| ensures values[i].Str? && Lacks(values[i].s, ' ') {
      assert values[i] in values;
      FoundAreContainers(events, places, values, values[i]);
    }
    AllWordsOfStrings(values, show);
  }

  /** Whatever else a stream holds, each space-free image of a container in it is found. */
  lemma ImageIsFound(events: seq<Event>, image: string, show: Json -> string)
    requires Word(image) && NamesImage(events, Str(image))
    ensures image in Found(events, KNOWN_IMAGE_PATHS, show)
  {
    var places, values := DiscoveryIsExact(events, show);
    FoundAreContainers(events, places, values, Str(image));
    WordIsAmongAll(values, image, show);
  }

  lemma {:induction false} WordIsAmongAll(values: seq<Json>, image: string, show: Json -> string)
    requires Word(image) && Str(image) in values
    ensures image in AllWords(values, show)
  {
    if values[0] == Str(image) {
      WordIsItsWords(image);
      assert AllWords(values, show)[0] == image;
    } else {
      assert Str(image) in values[1..];
      WordIsAmongAll(values[1..], image, show);
    }
  }
}
