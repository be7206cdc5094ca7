/**
 * `ConfigurationService`: reads the `custom-attributes` property and parses
 * it into an ordered list of definitions.
 *
 * Grammar, as the code reads it: entries separated by `,`, each entry
 * `method:form:name:type[:opt;opt...]`. A fragment that does not split into
 * exactly four or five `:` fields is dropped.
 */
module Configuration {
  import opened Wrappers
  import opened JavaString
  import opened AttributeDefinition

  /**
   * What `environment.getProperty` produced for the property
   * `custom-attributes`: no value (`null`), a value, or a
   * `GuacamoleException`.
   */
  datatype PropertyRead = Absent | Present(value: string) | RetrievalError

  /** The injected environment, reduced to the one property it is asked for. */
  datatype ConfigurationService = ConfigurationService(customAttributes: PropertyRead)
  {
    /**
     * `getCustomAttributes`: a retrieval error is swallowed and, like an
     * absent property, yields no definitions.
     */
    function GetCustomAttributes(): (r: seq<Definition>)
      ensures !customAttributes.Present? ==> r == []
      ensures customAttributes.Present? ==> |r| <= |Split(customAttributes.value, ',')|
    {
      match customAttributes
      case RetrievalError => []
      case Absent => []
      case Present(s) => ParseDefinitions(s)
    }
  }

  /** `options`: the fifth field split on `;`. */
  function Options(s: string): (r: seq<string>)
    ensures forall k :: 0 <= k < |r| ==> ';' !in r[k]
  {
    Split(s, ';')
  }

  /** Every character of `s` is `;`. */
  predicate OnlySeparators(s: string)
  {
    forall k :: 0 <= k < |s| ==> s[k] == ';'
  }

  /** A string of `;` only splits fully into one empty piece more than it has characters. */
  lemma {:induction false} SplitAllSeparators(s: string)
    requires OnlySeparators(s)
    ensures forall k :: 0 <= k < |SplitAll(s, ';')| ==> SplitAll(s, ';')[k] == ""
    decreases |s|
  {
    if s != [] {
      assert s[0] == ';';
      IndexOfUnique(s, ';', 0);
      SplitAllSeparators(s[1..]);
    }
  }

  /**
   * A fifth field made of `;` only, however many, configures an empty option
   * list, not an absent one.
   */
  lemma SeparatorOnlyOptions(s: string)
    requires s != "" && OnlySeparators(s)
    ensures Options(s) == []
  {
    assert s[0] == ';';
    SplitAllSeparators(s);
  }

  /** One `,` fragment: a definition when it has four or five `:` fields. */
  function ParseFragment(x: string): (r: Option<Definition>)
    ensures r.Some? <==> |Split(x, ':')| in {4, 5}
    ensures r.Some? ==> (r.value.options.None? <==> |Split(x, ':')| == 4)
    ensures r.Some? ==>
      [r.value.methodToken, r.value.form, r.value.name, r.value.typeName] == Split(x, ':')[..4]
    ensures r.Some? && |Split(x, ':')| == 5 ==> r.value.options == Some(Options(Split(x, ':')[4]))
  {
    var f := Split(x, ':');
    if |f| == 4 then Some(Definition(f[0], f[1], f[2], f[3], None))
    else if |f| == 5 then Some(Definition(f[0], f[1], f[2], f[3], Some(Options(f[4]))))
    else None
  }

  /** The stream `map`/`filter`/`map`/`collect` over the fragments. */
  function ParseFragments(frags: seq<string>): (r: seq<Definition>)
    ensures |r| <= |frags|
  {
    if frags == [] then []
    else
      (match ParseFragment(frags[0])
       case Some(d) => [d]
       case None => [])
      + ParseFragments(frags[1..])
  }

  /** The whole parse of a present property value. */
  function ParseDefinitions(s: string): (r: seq<Definition>)
  {
    ParseFragments(Split(s, ','))
  }

  /**
   * Fragments are parsed independently: a malformed fragment contributes
   * nothing and does not disturb its neighbours.
   */
  lemma {:induction false} ParseFragmentsAppend(a: seq<string>, b: seq<string>)
    ensures ParseFragments(a + b) == ParseFragments(a) + ParseFragments(b)
  {
    if a == [] {
      assert a + b == b;
    } else {
      assert (a + b)[1..] == a[1..] + b;
      ParseFragmentsAppend(a[1..], b);
    }
  }

  /** What a single fragment contributes: its definition, or nothing if malformed. */
  lemma ParseFragmentsSingle(x: string)
    ensures ParseFragment(x).Some? ==> ParseFragments([x]) == [ParseFragment(x).value]
    ensures ParseFragment(x).None? ==> ParseFragments([x]) == []
  {
    assert [x][1..] == [];
  }

  /** A malformed fragment between two lists of fragments is simply skipped. */
  lemma MalformedFragmentSkipped(a: seq<string>, x: string, b: seq<string>)
    requires |Split(x, ':')| !in {4, 5}
    ensures ParseFragments(a + [x] + b) == ParseFragments(a) + ParseFragments(b)
  {
    ParseFragmentsAppend(a + [x], b);
    ParseFragmentsAppend(a, [x]);
    ParseFragmentsSingle(x);
  }

  /** The result holds exactly one definition per well-formed fragment. */
  function CountWellFormed(frags: seq<string>): nat
  {
    if frags == [] then 0
    else (if |Split(frags[0], ':')| in {4, 5} then 1 else 0) + CountWellFormed(frags[1..])
  }

  lemma {:induction false} ParseFragmentsLength(frags: seq<string>)
    ensures |ParseFragments(frags)| == CountWellFormed(frags)
  {
    if frags != [] {
      ParseFragmentsLength(frags[1..]);
    }
  }

  /** An empty property value holds no definitions. */
  lemma EmptyValue()
    ensures ConfigurationService(Present("")).GetCustomAttributes() == []
  {
    assert ',' !in "";
    assert ':' !in "";
    assert Split("", ':') == [""];
  }

  /** A trailing `,` adds no fragment and no definition. */
  lemma TrailingComma(s: string)
    ensures ParseDefinitions(s + ",") == ParseDefinitions(s)
  {
    var t := s + [','];
    assert s + "," == t;
    SplitAllAppendDelimiter(s, ',');
    if ',' in s {
      var all := SplitAll(s, ',');
      assert DropTrailingEmpty(all + [""]) == DropTrailingEmpty((all + [""])[..|all|]);
      assert (all + [""])[..|all|] == all;
    } else {
      assert SplitAll(s, ',') == [s];
      assert Split(t, ',') == DropTrailingEmpty([s, ""]);
      assert [s, ""][..1] == [s];
      if s == "" {
        assert Split(t, ',') == [];
        assert ':' !in s;
        assert Split(s, ':') == [s];
        ParseFragmentsSingle(s);
      } else {
        assert Split(t, ',') == [s];
      }
    }
  }

  // Serialising definitions, the inverse of parsing.

  /** A field that survives a round trip: non-empty and free of the three separators. */
  predicate Token(t: string)
  {
    t != "" && ',' !in t && ':' !in t && ';' !in t
  }

  /** A definition whose fields all survive a round trip; configured options are non-empty. */
  predicate Serializable(d: Definition)
  {
    && Token(d.methodToken) && Token(d.form) && Token(d.name) && Token(d.typeName)
    && (d.options.Some? ==>
          |d.options.value| >= 1 && forall k :: 0 <= k < |d.options.value| ==> Token(d.options.value[k]))
  }

  /** The `:` fields of a definition's entry. */
  function Fields(d: Definition): seq<string>
  {
    [d.methodToken, d.form, d.name, d.typeName]
      + (match d.options case Some(o) => [Join(o, ';')] case None => [])
  }

  /** The entry `method:form:name:type[:opt;opt...]`. */
  function Serialize(d: Definition): string
  {
    Join(Fields(d), ':')
  }

  /** The property value listing the definitions, separated by `,`. */
  function SerializeAll(ds: seq<Definition>): string
  {
    Join(seq(|ds|, k requires 0 <= k < |ds| => Serialize(ds[k])), ',')
  }

  /** The options of a serialisable definition split back to themselves. */
  lemma OptionsRoundTrip(o: seq<string>)
    requires |o| >= 1 && forall k :: 0 <= k < |o| ==> Token(o[k])
    ensures Join(o, ';') != "" && ',' !in Join(o, ';') && ':' !in Join(o, ';')
    ensures Options(Join(o, ';')) == o
  {
    JoinNonEmpty(o, ';');
    JoinExcludes(o, ';', ',');
    JoinExcludes(o, ';', ':');
    SplitJoin(o, ';');
  }

  /** Parsing the entry of a serialisable definition gives the definition back. */
  lemma FragmentRoundTrip(d: Definition)
    requires Serializable(d)
    ensures ParseFragment(Serialize(d)) == Some(d)
    ensures Serialize(d) != "" && ',' !in Serialize(d)
  {
    var f := Fields(d);
    if d.options.Some? {
      OptionsRoundTrip(d.options.value);
    }
    assert forall k :: 0 <= k < |f| ==> ':' !in f[k] && ',' !in f[k] && f[k] != "";
    SplitJoin(f, ':');
    JoinNonEmpty(f, ':');
    JoinExcludes(f, ':', ',');
  }

  lemma {:induction false} FragmentsRoundTrip(ds: seq<Definition>)
    requires forall k :: 0 <= k < |ds| ==> Serializable(ds[k])
    ensures ParseFragments(seq(|ds|, k requires 0 <= k < |ds| => Serialize(ds[k]))) == ds
  {
    if ds != [] {
      var frags := seq(|ds|, k requires 0 <= k < |ds| => Serialize(ds[k]));
      FragmentRoundTrip(ds[0]);
      assert frags[1..] == seq(|ds[1..]|, k requires 0 <= k < |ds[1..]| => Serialize(ds[1..][k]));
      FragmentsRoundTrip(ds[1..]);
    }
  }

  /**
   * Round trip: a property value written from serialisable definitions
   * parses back to exactly those definitions, in order.
   */
  lemma RoundTrip(ds: seq<Definition>)
    requires forall k :: 0 <= k < |ds| ==> Serializable(ds[k])
    ensures ConfigurationService(Present(SerializeAll(ds))).GetCustomAttributes() == ds
  {
    var frags := seq(|ds|, k requires 0 <= k < |ds| => Serialize(ds[k]));
    FragmentsRoundTrip(ds);
    if ds == [] {
      EmptyValue();
    } else {
      forall k | 0 <= k < |frags| ensures ',' !in frags[k] && frags[k] != "" {
        FragmentRoundTrip(ds[k]);
      }
      SplitJoin(frags, ',');
    }
  }

  /**
   * A fragment whose fifth field is empty splits into four fields, because
   * `split` drops the trailing empty piece: it is a definition without options.
   * The first three fields may be empty; the type must not be, or it too
   * would be dropped as a trailing empty piece.
   */
  lemma EmptyFifthField(m: string, form: string, n: string, t: string)
    requires ':' !in m && ':' !in form && ':' !in n && ':' !in t && t != ""
    ensures ParseFragment(Join([m, form, n, t], ':') + ":") == Some(Definition(m, form, n, t, None))
  {
    var p := [m, form, n, t];
    assert forall k :: 0 <= k < |p| ==> ':' !in p[k];
    SplitAllJoin(p, ':');
    SplitAllAppendDelimiter(Join(p, ':'), ':');
    var all := SplitAll(Join(p, ':') + ":", ':');
    assert all == p + [""];
    assert all[..4] == p;
    assert DropTrailingEmpty(all) == DropTrailingEmpty(p);
  }

  /**
   * A fragment whose fifth field is made of `;` only parses as a five-field
   * definition with an empty (not absent) option list.
   */
  lemma SeparatorOnlyFifthField(m: string, form: string, n: string, t: string, s: string)
    requires ':' !in m && ':' !in form && ':' !in n && ':' !in t
    requires s != "" && OnlySeparators(s)
    ensures ParseFragment(Join([m, form, n, t, s], ':')) == Some(Definition(m, form, n, t, Some([])))
  {
    var p := [m, form, n, t, s];
    assert ':' !in s;
    assert forall k :: 0 <= k < |p| ==> ':' !in p[k];
    SplitJoin(p, ':');
    SeparatorOnlyOptions(s);
  }
}
