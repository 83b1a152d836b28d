/**
 * The simplified tokenizer for the `Forwarded` header of RFC 7239: elements are
 * cut at `;` (RFC 7239 section 4), forwarded-pairs at `,`, each pair at `=`;
 * parameter names are lower-cased (RFC 7239 section 4 makes them
 * case-insensitive), quotes are removed, and a parameter seen more than once
 * (in practice `for`, RFC 7239 section 5.2) collects its values into an
 * ordered list. Obfuscated identifiers such as `_gazonk` or `secret`
 * (RFC 7239 section 6.3) are values like any other.
 */
module Rfc7239 {
  import opened Wrappers
  import opened Text
  import Lists

  /** What is recorded for one parameter name: a single value, or the list once it repeats. */
  datatype Value = Scalar(text: string) | List(items: seq<string>)

  /** The parser's result object: lower-case parameter names to their values. */
  type Directives = map<string, Value>

  /** The values recorded under one name, in order. */
  function Values(v: Value): seq<string>
  {
    match v
    case Scalar(text) => [text]
    case List(items) => items
  }

  /** JavaScript truthiness of a recorded value: an empty string is falsy, an array never is. */
  predicate Truthy(v: Value)
  {
    match v
    case Scalar(text) => text != ""
    case List(_) => true
  }

  /** The forwarded-pairs of a sequence of elements, each element cut at commas, in order. */
  function PartsOf(elements: seq<string>): seq<string>
    decreases |elements|
  {
    if elements == [] then []
    else PartsOf(elements[..|elements| - 1]) + SplitSpaced(elements[|elements| - 1], ',')
  }

  lemma PartsOfStep(elements: seq<string>)
    requires elements != []
    ensures PartsOf(elements) == PartsOf(elements[..|elements| - 1]) + SplitSpaced(elements[|elements| - 1], ',')
  {
  }

  /** The parts of one more element follow the parts of the elements before it. */
  lemma PartsOfNext(elements: seq<string>, i: nat)
    requires i < |elements|
    ensures PartsOf(elements[..i + 1]) == PartsOf(elements[..i]) + SplitSpaced(elements[i], ',')
  {
    assert elements[..i + 1][..i] == elements[..i];
    PartsOfStep(elements[..i + 1]);
  }

  /** Every part of the header: cut at `;` into elements, then each element at `,`. */
  function Parts(header: string): seq<string>
  {
    PartsOf(SplitSpaced(header, ';'))
  }

  /** The parameter name of a part: the text before the first `=`, lower-cased. */
  function PartName(part: string): string
  {
    ToLower(Split(part, '=')[0])
  }

  /**
   * The value a part contributes: the text between the first and the second `=`
   * with every quote removed, or nothing when there is no `=` or that text is
   * empty. Emptiness is judged before the quotes go, so `""` gives the empty string.
   */
  function PartValue(part: string): Option<string>
  {
    var pair := Split(part, '=');
    if |pair| > 1 && pair[1] != "" then Some(StripQuotes(pair[1])) else None
  }

  /** Record one occurrence: the first as a scalar, the second makes a two-element list, later ones append. */
  function Record(d: Directives, name: string, value: string): Directives
  {
    if name !in d then d[name := Scalar(value)]
    else
      match d[name]
      case Scalar(first) => d[name := List([first, value])]
      case List(items) => d[name := List(items + [value])]
  }

  /** The directives collected from a sequence of parts, processed left to right. */
  function Collect(parts: seq<string>): Directives
    decreases |parts|
  {
    if parts == [] then map[]
    else AddPart(Collect(parts[..|parts| - 1]), parts[|parts| - 1])
  }

  /** A lone `for` scalar becomes a one-element list; everything else stays. */
  function Rewrap(d: Directives): Directives
  {
    if "for" in d && d["for"].Scalar? then d["for" := List([d["for"].text])] else d
  }

  /** The parser: collect every part, then rewrap `for`. */
  function Parse(header: string): Directives
  {
    Rewrap(Collect(Parts(header)))
  }

  /** The directives after one part: unchanged, or with the part's value recorded. */
  function AddPart(d: Directives, part: string): Directives
  {
    match PartValue(part)
    case None => d
    case Some(value) => Record(d, PartName(part), value)
  }

  /** The callback run on each part: split at `=`, lower-case the name, record a non-empty value. */
  method RecordPart(forwarded: Directives, part: string) returns (updated: Directives)
    ensures updated == AddPart(forwarded, part)
  {
    updated := forwarded;
    var pair := Split(part, '=');
    var name := ToLower(pair[0]);
    if |pair| > 1 && pair[1] != "" {
      var value := StripQuotes(pair[1]);
      if name !in updated {
        updated := updated[name := Scalar(value)];
      } else {
        match updated[name]
        case Scalar(first) =>
          updated := updated[name := List([first, value])];
        case List(items) =>
          updated := updated[name := List(items + [value])];
      }
    }
  }

  /** The loop over the parts of one element, recording each in turn. */
  method RecordParts(forwarded: Directives, ghost done: seq<string>, parts: seq<string>) returns (updated: Directives)
    requires forwarded == Collect(done)
    ensures updated == Collect(done + parts)
  {
    updated := forwarded;
    assert done + parts[..0] == done;
    for j := 0 to |parts|
      invariant updated == Collect(done + parts[..j])
    {
      Lists.PrefixNext(done, parts, j);
      CollectStep(done + parts[..j], parts[j]);
      updated := RecordPart(updated, parts[j]);
    }
    assert parts[..|parts|] == parts;
  }

  /** The exported parse function: every element recorded in order, then the `for` rewrap. */
  method ParseHeader(header: string) returns (forwarded: Directives)
    ensures forwarded == Parse(header)
  {
    forwarded := map[];
    var elements := SplitSpaced(header, ';');
    for i := 0 to |elements|
      invariant forwarded == Collect(PartsOf(elements[..i]))
    {
      PartsOfNext(elements, i);
      forwarded := RecordParts(forwarded, PartsOf(elements[..i]), SplitSpaced(elements[i], ','));
    }
    assert elements[..|elements|] == elements;
    if "for" in forwarded && forwarded["for"].Scalar? {
      forwarded := forwarded["for" := List([forwarded["for"].text])];
    }
  }

  /** One more part updates the collected directives by that part alone. */
  lemma CollectStep(parts: seq<string>, part: string)
    ensures Collect(parts + [part]) == AddPart(Collect(parts), part)
  {
    assert (parts + [part])[..|parts|] == parts;
  }

  /** The values the parts give for one name, in order of appearance. */
  function Occurrences(parts: seq<string>, name: string): seq<string>
    decreases |parts|
  {
    if parts == [] then []
    else
      var part := parts[|parts| - 1];
      Occurrences(parts[..|parts| - 1], name)
        + (if PartValue(part).Some? && PartName(part) == name then [PartValue(part).value] else [])
  }

  /**
   * Collecting keeps every occurrence of a name, in order: the name is present
   * exactly when it occurs, its values are its occurrences, and it is a scalar
   * exactly when it occurs once.
   */
  lemma {:induction false} CollectOccurrences(parts: seq<string>, name: string)
    ensures name in Collect(parts) <==> Occurrences(parts, name) != []
    ensures name in Collect(parts) ==> Values(Collect(parts)[name]) == Occurrences(parts, name)
    ensures name in Collect(parts) ==> (Collect(parts)[name].Scalar? <==> |Occurrences(parts, name)| == 1)
    decreases |parts|
  {
    if parts != [] {
      var init := parts[..|parts| - 1];
      CollectOccurrences(init, name);
      AddPartOccurrences(Collect(init), parts[|parts| - 1], name, Occurrences(init, name));
    }
  }

  /** The values a map records for `name` are exactly `occ`, with a scalar for a single one. */
  predicate Records(d: Directives, name: string, occ: seq<string>)
  {
    && (name in d <==> occ != [])
    && (name in d ==> Values(d[name]) == occ)
    && (name in d ==> (d[name].Scalar? <==> |occ| == 1))
  }

  /** Adding a part extends the occurrences of its name by its value, and leaves other names. */
  lemma AddPartOccurrences(d: Directives, part: string, name: string, occ: seq<string>)
    requires Records(d, name, occ)
    ensures Records(AddPart(d, part), name,
      occ + if PartValue(part).Some? && PartName(part) == name then [PartValue(part).value] else [])
  {
  }

  /**
   * The parse result, name by name: a name is present exactly when some part
   * gives it a value; its values are those values in order; and it is a scalar
   * exactly when it is not `for` and occurs once, so `for` is always a list.
   */
  lemma ParseOccurrences(header: string, name: string)
    ensures name in Parse(header) <==> Occurrences(Parts(header), name) != []
    ensures name in Parse(header) ==> Values(Parse(header)[name]) == Occurrences(Parts(header), name)
    ensures name in Parse(header) ==> (Parse(header)[name].Scalar? <==> name != "for" && |Occurrences(Parts(header), name)| == 1)
  {
    var parts := Parts(header);
    CollectOccurrences(parts, name);
    RewrapOccurrences(Collect(parts), name, Occurrences(parts, name));
  }

  /** Rewrapping keeps every name's values and turns only `for` from a scalar into a list. */
  lemma RewrapOccurrences(d: Directives, name: string, occ: seq<string>)
    requires Records(d, name, occ)
    ensures name in Rewrap(d) <==> occ != []
    ensures name in Rewrap(d) ==> Values(Rewrap(d)[name]) == occ
    ensures name in Rewrap(d) ==> (Rewrap(d)[name].Scalar? <==> name != "for" && |occ| == 1)
  {
  }

  /** If `for` is in the result it is a list. */
  lemma ParseForIsList(header: string)
    ensures "for" in Parse(header) ==> Parse(header)["for"].List?
  {
    ParseOccurrences(header, "for");
  }

  /** Every recorded name is lower-case, so `For=` and `for=` land under the same key. */
  lemma {:induction false} CollectNamesLowerCase(parts: seq<string>)
    ensures forall name :: name in Collect(parts) ==> ToLower(name) == name
    decreases |parts|
  {
    if parts != [] {
      CollectNamesLowerCase(parts[..|parts| - 1]);
      ToLowerIdempotent(Split(parts[|parts| - 1], '=')[0]);
    }
  }

  lemma ParseNamesLowerCase(header: string)
    ensures forall name :: name in Parse(header) ==> ToLower(name) == name
  {
    CollectNamesLowerCase(Parts(header));
  }

  /** No recorded value contains a double quote. */
  lemma {:induction false} OccurrencesUnquoted(parts: seq<string>, name: string)
    ensures forall v :: v in Occurrences(parts, name) ==> '"' !in v
    decreases |parts|
  {
    if parts != [] {
      OccurrencesUnquoted(parts[..|parts| - 1], name);
    }
  }

  lemma ParseValuesUnquoted(header: string, name: string)
    requires name in Parse(header)
    ensures forall v :: v in Values(Parse(header)[name]) ==> '"' !in v
  {
    ParseOccurrences(header, name);
    OccurrencesUnquoted(Parts(header), name);
  }

  /** Every part is made of characters of the header. */
  lemma {:induction false} PartsOfChars(elements: seq<string>)
    ensures forall p, c :: p in PartsOf(elements) && c in p ==> exists e :: e in elements && c in e
    decreases |elements|
  {
    if elements != [] {
      var init, last := elements[..|elements| - 1], elements[|elements| - 1];
      PartsOfChars(init);
      forall p, c | p in PartsOf(elements) && c in p ensures exists e :: e in elements && c in e {
        if p in PartsOf(init) {
          var e :| e in init && c in e;
          assert e in elements;
        } else {
          assert p in SplitSpaced(last, ',');
          SplitSpacedShape(last, ',');
          assert last in elements;
        }
      }
    }
  }

  /** A part without `=` contributes nothing; neither does a collection of such parts. */
  lemma {:induction false} CollectWithoutEquals(parts: seq<string>)
    requires forall p :: p in parts ==> '=' !in p
    ensures Collect(parts) == map[]
    decreases |parts|
  {
    if parts != [] {
      var last := parts[|parts| - 1];
      assert last in parts;
      SplitNone(last, '=');
      CollectWithoutEquals(parts[..|parts| - 1]);
    }
  }

  /** A header with no `=` at all, such as `INVALID`, parses to the empty object. */
  lemma ParseWithoutEquals(header: string)
    requires '=' !in header
    ensures Parse(header) == map[]
  {
    var elements := SplitSpaced(header, ';');
    SplitSpacedShape(header, ';');
    PartsOfChars(elements);
    assert forall p :: p in Parts(header) ==> '=' !in p;
    CollectWithoutEquals(Parts(header));
  }

  lemma ParseInvalid()
    ensures Parse("INVALID") == map[]
  {
    ParseWithoutEquals("INVALID");
  }

  /** The value is only the text between the first and second `=`; what follows a second `=` is dropped. */
  lemma PartValueSecondEquals(name: string, value: string, rest: string)
    requires '=' !in name && '=' !in value
    ensures PartName(name + "=" + value + "=" + rest) == ToLower(name)
    ensures PartValue(name + "=" + value + "=" + rest) == if value == "" then None else Some(StripQuotes(value))
  {
    var part := name + "=" + value + "=" + rest;
    assert part == name + ['='] + (value + ['='] + rest);
    SplitFirst(name, value + ['='] + rest, '=');
    SplitFirst(value, rest, '=');
  }

  /** A part `name=value` with a single `=`. */
  lemma PartValueSingleEquals(name: string, value: string)
    requires '=' !in name && '=' !in value
    ensures PartName(name + "=" + value) == ToLower(name)
    ensures PartValue(name + "=" + value) == if value == "" then None else Some(StripQuotes(value))
  {
    assert name + "=" + value == name + ['='] + value;
    SplitFirst(name, value, '=');
    SplitNone(value, '=');
  }

  /** `for=""` is not empty before quote removal, so it records the empty string. */
  lemma EmptyQuotedValue()
    ensures PartValue("for=\"\"") == Some("")
  {
    assert "for=\"\"" == "for" + "=" + "\"\"";
    PartValueSingleEquals("for", "\"\"");
    assert "\"\"" == ['"'] + "" + ['"'];
    StripQuotesWrapped("");
  }

  /** `name=` and a bare `name` contribute nothing. */
  lemma PartWithoutValue(name: string)
    requires '=' !in name
    ensures PartValue(name + "=") == None
    ensures PartValue(name) == None
  {
    PartValueSingleEquals(name, "");
    assert name + "=" + "" == name + "=";
    SplitNone(name, '=');
  }

  /** Elements without commas are parts as they stand. */
  lemma {:induction false} PartsOfCommaFree(elements: seq<string>)
    requires forall e :: e in elements ==> ',' !in e
    ensures PartsOf(elements) == elements
    decreases |elements|
  {
    if elements != [] {
      var init, last := elements[..|elements| - 1], elements[|elements| - 1];
      assert elements == init + [last];
      PartsOfCommaFree(init);
      assert last in elements;
      SplitSpacedNone(last, ',');
      PartsOfStep(elements);
    }
  }

  /** A header with neither `;` nor `,` is a single part. */
  lemma SinglePart(header: string)
    requires ';' !in header && ',' !in header
    ensures Parts(header) == [header]
  {
    SplitSpacedNone(header, ';');
    PartsOfCommaFree([header]);
  }

  /**
   * A header holding one `name=value` pair: the lower-cased name maps to the
   * unquoted value, and a `for` value becomes a one-element list.
   */
  lemma ParseSinglePair(name: string, value: string)
    requires ';' !in name && ',' !in name && '=' !in name
    requires ';' !in value && ',' !in value && '=' !in value
    requires value != ""
    ensures Parse(name + "=" + value) ==
      if ToLower(name) == "for" then map["for" := List([StripQuotes(value)])]
      else map[ToLower(name) := Scalar(StripQuotes(value))]
  {
    var header := name + "=" + value;
    SinglePart(header);
    PartValueSingleEquals(name, value);
    CollectStep([], header);
    assert Collect([header]) == map[ToLower(name) := Scalar(StripQuotes(value))];
    RewrapSingle(ToLower(name), StripQuotes(value));
  }

  /** Rewrapping a map of one scalar. */
  lemma RewrapSingle(name: string, value: string)
    ensures Rewrap(map[name := Scalar(value)]) ==
      if name == "for" then map["for" := List([value])] else map[name := Scalar(value)]
  {
  }

  /** A character the parser neither cuts at nor removes. */
  predicate PlainChar(c: char)
  {
    c != ';' && c != ',' && c != ' ' && c != '=' && c != '"'
  }

  /** A name or value without any of the characters the parser cuts at or removes. */
  predicate Plain(s: string)
  {
    forall i :: 0 <= i < |s| ==> PlainChar(s[i])
  }

  lemma PlainExcludes(s: string)
    requires Plain(s)
    ensures ';' !in s && ',' !in s && ' ' !in s && '=' !in s && '"' !in s
  {
  }

  /** A single quoted `for` pair, whatever the case of its name, gives a one-element `for` list. */
  lemma ParseQuotedFor(name: string, node: string)
    requires ToLower(name) == "for" && Plain(name) && Plain(node)
    ensures Parse(name + "=\"" + node + "\"") == map["for" := List([node])]
  {
    PlainExcludes(name);
    PlainExcludes(node);
    var quoted := ['"'] + node + ['"'];
    assert name + "=\"" + node + "\"" == name + "=" + quoted;
    StripQuotesWrapped(node);
    ParseSinglePair(name, quoted);
  }

  /** The lower-cased forms of the parameter names used below. */
  lemma LoweredNames()
    ensures ToLower("For") == "for" && ToLower("for") == "for"
    ensures ToLower("proto") == "proto" && ToLower("by") == "by"
  {
  }

  /** `For="[2001:db8:cafe::17]:4711"`: the name is lower-cased and the quotes go. */
  lemma ParseQuotedIpv6()
    ensures Parse("For" + "=\"" + "[2001:db8:cafe::17]:4711" + "\"") == map["for" := List(["[2001:db8:cafe::17]:4711"])]
  {
    LoweredNames();
    ParseQuotedFor("For", "[2001:db8:cafe::17]:4711");
  }

  /** `for="_gazonk"`: an obfuscated identifier passes through, unquoted. */
  lemma ParseObfuscatedIdentifier()
    ensures Parse("for" + "=\"" + "_gazonk" + "\"") == map["for" := List(["_gazonk"])]
  {
    LoweredNames();
    ParseQuotedFor("for", "_gazonk");
  }

  /** A part `name=value` free of separators and quotes records the value as written. */
  lemma PlainPart(name: string, value: string)
    requires '=' !in name && '=' !in value && '"' !in value && value != ""
    ensures PartName(name + "=" + value) == ToLower(name)
    ensures PartValue(name + "=" + value) == Some(value)
  {
    PartValueSingleEquals(name, value);
    StripQuotesUnquoted(value);
  }

  /** Two directives collected one after the other. */
  lemma CollectPair(p1: string, p2: string)
    ensures Collect([p1, p2]) == AddPart(AddPart(map[], p1), p2)
  {
    CollectStep([], p1);
    assert [] + [p1] == [p1];
    CollectStep([p1], p2);
    assert [p1] + [p2] == [p1, p2];
  }

  /** One element holding two parts, the comma followed by a space. */
  lemma PartsCommaSpacePair(a: string, b: string)
    requires ';' !in a && ',' !in a && ' ' !in a
    requires ';' !in b && ',' !in b && ' ' !in b
    ensures Parts(a + [',', ' '] + b) == [a, b]
  {
    var header := a + [',', ' '] + b;
    SplitSpacedNone(header, ';');
    SplitSpacedPair(a, b, ',');
    PartsOfStep([header]);
  }

  /** One element holding two parts, the comma alone. */
  lemma PartsCommaPair(a: string, b: string)
    requires ';' !in a && ',' !in a && ' ' !in a
    requires ';' !in b && ',' !in b && ' ' !in b
    ensures Parts(a + [','] + b) == [a, b]
  {
    var header := a + [','] + b;
    SplitSpacedNone(header, ';');
    SplitFirst(a, b, ',');
    SplitNone(b, ',');
    SplitSpacedNoSpaces(header, ',');
    PartsOfStep([header]);
  }

  /** Three elements of one part each, joined by bare semicolons. */
  lemma PartsThreeElements(a: string, b: string, c: string)
    requires ';' !in a && ',' !in a && ' ' !in a
    requires ';' !in b && ',' !in b && ' ' !in b
    requires ';' !in c && ',' !in c && ' ' !in c
    ensures Parts(a + [';'] + b + [';'] + c) == [a, b, c]
  {
    var header := a + [';'] + b + [';'] + c;
    assert header == a + [';'] + (b + [';'] + c);
    SplitFirst(a, b + [';'] + c, ';');
    SplitFirst(b, c, ';');
    SplitNone(c, ';');
    SplitSpacedNoSpaces(header, ';');
    assert SplitSpaced(header, ';') == [a, b, c];
    PartsOfCommaFree([a, b, c]);
  }


  /** `n1=v1, n2=v2` and `n1=v1,n2=v2` with both names lower-casing to `for`: a two-element `for` list. */
  lemma ParseTwoNodes(n1: string, v1: string, n2: string, v2: string)
    requires Plain(n1) && Plain(v1) && Plain(n2) && Plain(v2) && v1 != "" && v2 != ""
    requires ToLower(n1) == "for" && ToLower(n2) == "for"
    ensures Parse(n1 + "=" + v1 + ", " + n2 + "=" + v2) == map["for" := List([v1, v2])]
    ensures Parse(n1 + "=" + v1 + "," + n2 + "=" + v2) == map["for" := List([v1, v2])]
  {
    var p1, p2 := n1 + "=" + v1, n2 + "=" + v2;
    PlainExcludes(n1);
    PlainExcludes(v1);
    PlainExcludes(n2);
    PlainExcludes(v2);
    PlainPart(n1, v1);
    PlainPart(n2, v2);
    var spaced := n1 + "=" + v1 + ", " + n2 + "=" + v2;
    assert spaced == p1 + [',', ' '] + p2;
    PartsCommaSpacePair(p1, p2);
    ParseTwoForParts(spaced, p1, p2);
    var tight := n1 + "=" + v1 + "," + n2 + "=" + v2;
    assert tight == p1 + [','] + p2;
    PartsCommaPair(p1, p2);
    ParseTwoForParts(tight, p1, p2);
  }

  /** A header whose two parts both give `for` a value: a two-element list in part order. */
  lemma ParseTwoForParts(header: string, p1: string, p2: string)
    requires Parts(header) == [p1, p2]
    requires PartValue(p1).Some? && PartValue(p2).Some? && PartName(p1) == "for" && PartName(p2) == "for"
    ensures Parse(header) == map["for" := List([PartValue(p1).value, PartValue(p2).value])]
  {
    CollectPair(p1, p2);
  }

  /** `n1=v1;n2=v2;n3=v3` under distinct names: `for` as a one-element list, the others as scalars. */
  lemma ParseThreeNames(n1: string, v1: string, n2: string, v2: string, n3: string, v3: string)
    requires Plain(n1) && Plain(v1) && Plain(n2) && Plain(v2) && Plain(n3) && Plain(v3)
    requires v1 != "" && v2 != "" && v3 != ""
    requires ToLower(n1) == "for" && ToLower(n2) != "for" && ToLower(n3) != "for" && ToLower(n2) != ToLower(n3)
    ensures Parse(n1 + "=" + v1 + ";" + n2 + "=" + v2 + ";" + n3 + "=" + v3) ==
      map["for" := List([v1]), ToLower(n2) := Scalar(v2), ToLower(n3) := Scalar(v3)]
  {
    var p1, p2, p3 := n1 + "=" + v1, n2 + "=" + v2, n3 + "=" + v3;
    PlainExcludes(n1);
    PlainExcludes(v1);
    PlainExcludes(n2);
    PlainExcludes(v2);
    PlainExcludes(n3);
    PlainExcludes(v3);
    var header := n1 + "=" + v1 + ";" + n2 + "=" + v2 + ";" + n3 + "=" + v3;
    assert header == p1 + [';'] + p2 + [';'] + p3;
    PartsThreeElements(p1, p2, p3);
    PlainPart(n1, v1);
    PlainPart(n2, v2);
    PlainPart(n3, v3);
    CollectThreeNames(p1, p2, p3);
    RewrapThree(v1, ToLower(n2), v2, ToLower(n3), v3);
  }

  /** Rewrapping a `for` scalar beside two other scalars. */
  lemma RewrapThree(v1: string, a: string, v2: string, b: string, v3: string)
    requires a != "for" && b != "for" && a != b
    ensures Rewrap(map["for" := Scalar(v1), a := Scalar(v2), b := Scalar(v3)]) ==
      map["for" := List([v1]), a := Scalar(v2), b := Scalar(v3)]
  {
  }

  /** Three parts with values under three distinct names: three scalars. */
  lemma CollectThreeNames(p1: string, p2: string, p3: string)
    requires PartValue(p1).Some? && PartValue(p2).Some? && PartValue(p3).Some?
    requires PartName(p1) != PartName(p2) && PartName(p1) != PartName(p3) && PartName(p2) != PartName(p3)
    ensures Collect([p1, p2, p3]) == map[PartName(p1) := Scalar(PartValue(p1).value),
      PartName(p2) := Scalar(PartValue(p2).value), PartName(p3) := Scalar(PartValue(p3).value)]
  {
    CollectPair(p1, p2);
    assert [p1, p2, p3][..2] == [p1, p2];
    CollectStep([p1, p2], p3);
  }

  /** `for=192.0.2.43, for=198.51.100.17`: repeated `for` values collect in order. */
  lemma ParseRepeatedFor()
    ensures Parse("for" + "=" + "192.0.2.43" + ", " + "for" + "=" + "198.51.100.17") ==
      map["for" := List(["192.0.2.43", "198.51.100.17"])]
  {
    LoweredNames();
    ParseTwoNodes("for", "192.0.2.43", "for", "198.51.100.17");
  }

  /** `for=0.0.7.1,For=0.0.7.2`: names differing only in case accumulate under one key. */
  lemma ParseCaseInsensitiveNames()
    ensures Parse("for" + "=" + "0.0.7.1" + "," + "For" + "=" + "0.0.7.2") == map["for" := List(["0.0.7.1", "0.0.7.2"])]
  {
    LoweredNames();
    ParseTwoNodes("for", "0.0.7.1", "For", "0.0.7.2");
  }

  /** `for=192.0.2.60;proto=http;by=203.0.113.43`: elements split at `;`, each name kept apart. */
  lemma ParseThreeElements()
    ensures Parse("for" + "=" + "192.0.2.60" + ";" + "proto" + "=" + "http" + ";" + "by" + "=" + "203.0.113.43") ==
      map["for" := List(["192.0.2.60"]), "proto" := Scalar("http"), "by" := Scalar("203.0.113.43")]
  {
    LoweredNames();
    ParseThreeNames("for", "192.0.2.60", "proto", "http", "by", "203.0.113.43");
  }

  // The parser as written, on a plain JavaScript object.

  /**
   * What `typeof forwarded[name]` meets on a fresh object literal under a
   * lower-case name it does not own: `__proto__` reaches `Object.prototype`, an
   * object without `push`; `constructor` is a function; any other name is
   * `undefined`.
   */
  datatype Inherited = NoMember | PrototypeObject | FunctionMember

  function InheritedMember(name: string): Inherited
  {
    if name == "__proto__" then PrototypeObject
    else if name == "constructor" then FunctionMember
    else NoMember
  }

  /**
   * The per-part callback on a plain object. An inherited function matches no
   * case of the `typeof` switch and the part is dropped; the inherited
   * `Object.prototype` takes the `'object'` case, whose `push` call raises a
   * `TypeError`, here `None`.
   */
  function AddPartAsWritten(d: Directives, part: string): Option<Directives>
  {
    match PartValue(part)
    case None => Some(d)
    case Some(value) =>
      var name := PartName(part);
      if name in d then Some(Record(d, name, value))
      else
        match InheritedMember(name)
        case NoMember => Some(Record(d, name, value))
        case FunctionMember => Some(d)
        case PrototypeObject => None
  }

  /** A part the plain object does not shadow: its name is not `constructor`. */
  predicate Unshadowed(part: string)
  {
    PartName(part) != "constructor"
  }

  /** A part that raises on the plain object: a value under the name `__proto__`. */
  predicate Raises(part: string)
  {
    PartValue(part).Some? && PartName(part) == "__proto__"
  }

  /**
   * The parts collected on a plain object, stopping at the first raise: it
   * raises exactly when some part raises, and otherwise collects what the
   * corrected `Collect` does from the parts not named `constructor`.
   */
  function CollectAsWritten(parts: seq<string>): (r: Option<Directives>)
    ensures r.None? <==> exists p :: p in parts && Raises(p)
    ensures r.Some? ==> r.value == Collect(Lists.Filter(parts, Unshadowed))
    ensures r.Some? ==> "__proto__" !in r.value && "constructor" !in r.value
    decreases |parts|
  {
    if parts == [] then Some(map[])
    else
      var init, last := parts[..|parts| - 1], parts[|parts| - 1];
      assert parts == init + [last];
      var prev := CollectAsWritten(init);
      if prev.None? then None
      else
        var kept := Lists.Filter(init, Unshadowed);
        assert Lists.Filter(parts, Unshadowed) == if Unshadowed(last) then kept + [last] else kept;
        CollectStep(kept, last);
        AddPartAsWritten(prev.value, last)
  }

  /** The parser as written: a raise escapes it, otherwise the lone `for` is rewrapped. */
  function ParseAsWritten(header: string): (r: Option<Directives>)
    ensures r.None? <==> exists p :: p in Parts(header) && Raises(p)
    ensures r.Some? ==> r.value == Rewrap(Collect(Lists.Filter(Parts(header), Unshadowed)))
  {
    var parts := Parts(header);
    match CollectAsWritten(parts)
    case None => None
    case Some(d) => Some(Rewrap(d))
  }

  /** Where no part is named `__proto__` or `constructor`, the parser as written and the corrected one agree. */
  lemma ParseAsWrittenAgrees(header: string)
    requires forall p :: p in Parts(header) ==> Unshadowed(p) && !Raises(p)
    ensures ParseAsWritten(header) == Some(Parse(header))
  {
    Lists.FilterAll(Parts(header), Unshadowed);
  }

  /** The lower-cased forms of the two inherited names. */
  lemma InheritedNamesLowered()
    ensures ToLower("__proto__") == "__proto__" && ToLower("constructor") == "constructor"
  {
  }

  /**
   * A header holding one plain pair, on a plain object: `__proto__` raises,
   * `constructor` is dropped, and any other name parses as the corrected parser does.
   */
  lemma SinglePairAsWritten(name: string, value: string)
    requires Plain(name) && Plain(value) && value != ""
    ensures ParseAsWritten(name + "=" + value) ==
      match InheritedMember(ToLower(name))
      case PrototypeObject => None
      case FunctionMember => Some(map[])
      case NoMember => Some(Parse(name + "=" + value))
  {
    PlainExcludes(name);
    PlainExcludes(value);
    var header := name + "=" + value;
    SinglePart(header);
    PlainPart(name, value);
    assert forall p :: p in Parts(header) <==> p == header;
    if !Unshadowed(header) {
      assert Lists.Filter([header], Unshadowed) == [];
    } else {
      assert Lists.Filter([header], Unshadowed) == [header];
    }
  }

  /** One plain pair under a name other than `for` records its value as a scalar under the lower-cased name. */
  lemma PlainPairParse(name: string, value: string)
    requires Plain(name) && Plain(value) && value != "" && ToLower(name) != "for"
    ensures Parse(name + "=" + value) == map[ToLower(name) := Scalar(value)]
  {
    PlainExcludes(name);
    PlainExcludes(value);
    ParseSinglePair(name, value);
    StripQuotesUnquoted(value);
  }

  /**
   * `Forwarded: __proto__=x` raises out of the parser as written, where the
   * corrected parser records `__proto__` like any other name.
   */
  lemma ProtoNameThrows()
    ensures ParseAsWritten("__proto__" + "=" + "x").None?
    ensures Parse("__proto__" + "=" + "x") == map["__proto__" := Scalar("x")]
  {
    InheritedNamesLowered();
    SinglePairAsWritten("__proto__", "x");
    PlainPairParse("__proto__", "x");
  }

  /** `Forwarded: constructor=x` is dropped by the parser as written, and recorded by the corrected one. */
  lemma ConstructorNameDropped()
    ensures ParseAsWritten("constructor" + "=" + "x") == Some(map[])
    ensures Parse("constructor" + "=" + "x") == map["constructor" := Scalar("x")]
  {
    InheritedNamesLowered();
    SinglePairAsWritten("constructor", "x");
    PlainPairParse("constructor", "x");
  }
}
