/**
 * The front end of `parse_proto_file`: every `message Name {` (or `enum Name {`)
 * header whose braces match contributes the text from the keyword through the
 * matching `}` to a dictionary keyed by the name.
 */
module Definitions {
  import opened Tables
  import opened Braces

  /**
   * One match of the header pattern: the captured name and the position where
   * the match starts (the `m` of `message`, the `e` of `enum`).
   */
  datatype Header = Header(name: Name, start: nat)

  /** The definitions found so far, as the source's dict after the headers are consumed. */
  function Collect(content: string, headers: seq<Header>): (d: Dict<Text>)
    ensures d.Valid()
  {
    if headers == [] then EmptyDict()
    else
      var d := Collect(content, headers[..|headers| - 1]);
      var h := headers[|headers| - 1];
      var e := MatchingBrace(content, h.start);
      if e != -1 then d.Put(h.name, content[h.start..e + 1]) else d
  }

  /** The `i`-th header's braces match. */
  predicate Matched(content: string, headers: seq<Header>, i: int)
    requires 0 <= i < |headers|
  {
    MatchingBrace(content, headers[i].start) != -1
  }

  /** Header `i` is the last header named `n` whose braces match. */
  predicate LastMatched(content: string, headers: seq<Header>, n: Name, i: int) {
    && 0 <= i < |headers| && headers[i].name == n && Matched(content, headers, i)
    && forall j :: i < j < |headers| && headers[j].name == n ==> !Matched(content, headers, j)
  }

  /** One more header adds its name exactly when its braces match. */
  lemma CollectStep(content: string, headers: seq<Header>, n: Name)
    requires headers != []
    ensures var k := |headers| - 1;
      n in Collect(content, headers).items <==>
        n in Collect(content, headers[..k]).items || (headers[k].name == n && Matched(content, headers, k))
  {
  }

  /** A name is defined exactly when some header of that name has matching braces. */
  lemma {:induction false} CollectDefines(content: string, headers: seq<Header>, n: Name)
    ensures n in Collect(content, headers).items <==>
      exists i :: 0 <= i < |headers| && headers[i].name == n && Matched(content, headers, i)
  {
    if headers != [] {
      var k := |headers| - 1;
      var init := headers[..k];
      CollectDefines(content, init, n);
      CollectStep(content, headers, n);
      if headers[k].name == n && Matched(content, headers, k) {
      } else if n in Collect(content, init).items {
        var i :| 0 <= i < k && init[i].name == n && Matched(content, init, i);
        assert headers[i] == init[i];
      } else {
        forall i | 0 <= i < |headers| && headers[i].name == n
          ensures !Matched(content, headers, i)
        {
          if i < k {
            assert headers[i] == init[i];
          }
        }
      }
    }
  }

  /**
   * The body kept for a name is the span of its last matched header: it starts
   * at the header and ends with the `}` that brings the brace count back to zero.
   */
  lemma {:induction false} CollectBody(content: string, headers: seq<Header>, n: Name, i: int)
    requires LastMatched(content, headers, n, i)
    ensures n in Collect(content, headers).items
    ensures var e := MatchingBrace(content, headers[i].start);
      && Collect(content, headers).items[n] == content[headers[i].start..e + 1]
      && ClosesAt(content, headers[i].start, e)
  {
    MatchingBraceIsFirstClose(content, headers[i].start);
    var k := |headers| - 1;
    if i < k {
      var init := headers[..k];
      assert init[i] == headers[i];
      forall j | i < j < k && init[j].name == n
        ensures !Matched(content, init, j)
      {
        assert init[j] == headers[j];
      }
      CollectBody(content, init, n, i);
    }
  }

  /** The loop of `parse_proto_file` over the header matches of one keyword. */
  method CollectDefinitions(content: string, headers: seq<Header>) returns (d: Dict<Text>)
    ensures d == Collect(content, headers)
  {
    d := EmptyDict();
    for k := 0 to |headers|
      invariant d == Collect(content, headers[..k])
    {
      assert headers[..k + 1][..k] == headers[..k];
      var h := headers[k];
      var end := FindMatchingBrace(content, h.start);
      if end != -1 {
        d := d.Put(h.name, content[h.start..end + 1]);
      }
    }
    assert headers[..|headers|] == headers;
  }

  /** The two dictionaries `message_dict` and `enum_dict`. */
  datatype Catalog = Catalog(messages: Dict<Text>, enums: Dict<Text>) {

    ghost predicate Valid() {
      messages.Valid() && enums.Valid()
    }

    /** `n` is defined, as a message or as an enum. */
    predicate Defines(n: Name) {
      n in messages.items || n in enums.items
    }

    function Names(): set<Name> {
      messages.items.Keys + enums.items.Keys
    }

    /** `n` names both a message and an enum (possible with nested definitions). */
    predicate Clashes(n: Name) {
      n in messages.items && n in enums.items
    }
  }
}
