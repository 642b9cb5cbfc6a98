/**
 * How `loadData` cuts one line into comma-separated fields: it puts the line in
 * a `std::stringstream` and calls `std::getline(ss, token, ',')` repeatedly.
 * Each call starts at the stream's read position, extracts characters up to and
 * including the next comma (which is not stored) or up to the end, and fails
 * only when there is nothing left to extract. Hence interior empty fields are
 * kept, a final comma yields no trailing empty field, and an empty line yields
 * no field at all.
 */
module CsvLine {
  import opened Wrappers

  /** Index of the first comma at or after `pos`, or `|s|` if there is none. */
  function FieldEnd(s: string, pos: nat): (j: nat)
    requires pos <= |s|
    ensures pos <= j <= |s|
    decreases |s| - pos
  {
    if pos == |s| || s[pos] == ',' then pos else FieldEnd(s, pos + 1)
  }

  /** FieldEnd stops at the first comma: none before it, and a comma there unless at the end. */
  lemma {:induction false} FieldEndMeaning(s: string, pos: nat)
    requires pos <= |s|
    ensures FieldEnd(s, pos) < |s| ==> s[FieldEnd(s, pos)] == ','
    ensures forall k :: pos <= k < FieldEnd(s, pos) ==> s[k] != ','
    decreases |s| - pos
  {
    if pos < |s| && s[pos] != ',' {
      FieldEndMeaning(s, pos + 1);
    }
  }

  /**
   * One call of `getline(ss, token, ',')` with the stream positioned at `pos`:
   * None when the call fails, otherwise the token and the new position.
   */
  function NextField(s: string, pos: nat): (r: Option<(string, nat)>)
    requires pos <= |s|
    ensures r.None? <==> pos == |s|
    ensures r.Some? ==> pos < r.value.1 <= |s|
  {
    if pos == |s| then None
    else
      var j := FieldEnd(s, pos);
      Some((s[pos..j], if j < |s| then j + 1 else j))
  }

  /**
   * What a successful getline call extracts: the longest comma-free run at
   * the cursor, followed by the comma that ended it unless the line ended.
   */
  lemma NextFieldMeaning(s: string, pos: nat)
    requires pos < |s|
    ensures var token, next := NextField(s, pos).value.0, NextField(s, pos).value.1;
            && ',' !in token
            && (s[pos..next] == token + [','] || (s[pos..next] == token && next == |s|))
  {
    var j := FieldEnd(s, pos);
    FieldEndMeaning(s, pos);
    if j < |s| {
      assert s[pos..j + 1] == s[pos..j] + [','];
    }
  }

  /** The tokens that successive getline calls yield from position `pos` on. */
  function FieldsFrom(s: string, pos: nat): seq<string>
    requires pos <= |s|
    decreases |s| - pos
  {
    match NextField(s, pos)
    case None => []
    case Some((token, next)) => [token] + FieldsFrom(s, next)
  }

  /** The fields of a whole line; an empty line has none. */
  function Fields(s: string): (fields: seq<string>)
    ensures fields == [] <==> s == []
  {
    FieldsFrom(s, 0)
  }

  /** No field holds a comma. */
  lemma {:induction false} FieldsFromHaveNoComma(s: string, pos: nat)
    requires pos <= |s|
    ensures forall i :: 0 <= i < |FieldsFrom(s, pos)| ==> ',' !in FieldsFrom(s, pos)[i]
    decreases |s| - pos
  {
    if pos < |s| {
      var token, next := NextField(s, pos).value.0, NextField(s, pos).value.1;
      NextFieldMeaning(s, pos);
      FieldsFromHaveNoComma(s, next);
      assert FieldsFrom(s, pos) == [token] + FieldsFrom(s, next);
    }
  }

  /** Fields written back with one comma between each two; the reference for `Fields`. */
  function Join(fields: seq<string>): string
    decreases |fields|
  {
    if fields == [] then []
    else if |fields| == 1 then fields[0]
    else fields[0] + [','] + Join(fields[1..])
  }

  /** A comma-free run `f` at `pos` followed by a comma is the token there. */
  lemma TokenBeforeComma(s: string, pos: nat, f: string, tail: string)
    requires pos <= |s| && s[pos..] == f + [','] + tail && ',' !in f
    ensures NextField(s, pos) == Some((f, pos + |f| + 1))
    ensures s[pos + |f| + 1..] == tail
  {
    assert s[pos + |f|] == s[pos..][|f|];
    forall k | pos <= k < pos + |f|
      ensures s[k] != ','
    {
      assert s[k] == s[pos..][k - pos] == f[k - pos];
    }
    FieldEndMeaning(s, pos);
    assert FieldEnd(s, pos) == pos + |f|;
    assert s[pos..pos + |f|] == s[pos..][..|f|] == f;
    assert s[pos + |f| + 1..] == s[pos..][|f| + 1..];
  }

  /** A non-empty comma-free rest of the line is its last token. */
  lemma LastToken(s: string, pos: nat, f: string)
    requires pos <= |s| && s[pos..] == f && f != [] && ',' !in f
    ensures NextField(s, pos) == Some((f, |s|))
  {
    forall k | pos <= k < |s|
      ensures s[k] != ','
    {
      assert s[k] == s[pos..][k - pos];
    }
    FieldEndMeaning(s, pos);
    assert FieldEnd(s, pos) == |s|;
    assert s[pos..|s|] == f;
  }

  /** Joining the fields of `s[pos..]` gives it back, but for a final comma. */
  lemma {:induction false} JoinFieldsFrom(s: string, pos: nat)
    requires pos <= |s|
    ensures Join(FieldsFrom(s, pos)) + (if pos < |s| && s[|s| - 1] == ',' then [','] else []) == s[pos..]
    decreases |s| - pos
  {
    if pos < |s| {
      var token, next := NextField(s, pos).value.0, NextField(s, pos).value.1;
      var rest := FieldsFrom(s, next);
      NextFieldMeaning(s, pos);
      assert FieldsFrom(s, pos) == [token] + rest;
      if s[pos..next] == token + [','] {
        assert s[pos..] == token + [','] + s[next..];
        if next == |s| {
          assert rest == [];
          assert s[|s| - 1] == s[pos..next][next - 1 - pos];
        } else {
          JoinFieldsFrom(s, next);
          assert Join([token] + rest) == token + [','] + Join(rest);
        }
      } else {
        assert next == |s| && rest == [];
        assert s[|s| - 1] == token[|token| - 1];
      }
    }
  }

  /** Splitting loses nothing but a final comma. */
  lemma JoinFields(s: string)
    ensures Join(Fields(s)) + (if s != [] && s[|s| - 1] == ',' then [','] else []) == s
  {
    JoinFieldsFrom(s, 0);
  }

  /** A successful getline call contributes its token as the next field. */
  lemma FieldsFromStep(s: string, pos: nat, token: string, next: nat)
    requires pos <= |s| && NextField(s, pos) == Some((token, next))
    ensures FieldsFrom(s, pos) == [token] + FieldsFrom(s, next)
  {
  }

  lemma {:induction false} FieldsFromJoin(s: string, pos: nat, fields: seq<string>)
    requires pos <= |s| && s[pos..] == Join(fields)
    requires fields != [] && fields[|fields| - 1] != []
    requires forall i :: 0 <= i < |fields| ==> ',' !in fields[i]
    ensures FieldsFrom(s, pos) == fields
    decreases |fields|
  {
    var f := fields[0];
    if |fields| == 1 {
      LastToken(s, pos, f);
      FieldsFromStep(s, pos, f, |s|);
    } else {
      var rest := fields[1..];
      assert Join(fields) == f + [','] + Join(rest);
      TokenBeforeComma(s, pos, f, Join(rest));
      FieldsFromStep(s, pos, f, pos + |f| + 1);
      FieldsFromJoin(s, pos + |f| + 1, rest);
      assert fields == [f] + rest;
    }
  }

  /**
   * Splitting a join gives the fields back, provided none holds a comma and
   * the last one is not empty (a final empty field is the one getline drops).
   */
  lemma FieldsOfJoin(fields: seq<string>)
    requires fields != [] && fields[|fields| - 1] != []
    requires forall i :: 0 <= i < |fields| ==> ',' !in fields[i]
    ensures Fields(Join(fields)) == fields
  {
    FieldsFromJoin(Join(fields), 0, fields);
  }

  lemma CommasAfterToken(token: string, tail: string)
    requires ',' !in token
    ensures multiset(token + [','] + tail)[','] == 1 + multiset(tail)[',']
  {
    assert multiset(token + [','] + tail) == multiset(token) + multiset([',']) + multiset(tail);
  }

  /** Joining comma-free fields puts exactly one comma between each two. */
  lemma {:induction false} CommasInJoin(fields: seq<string>)
    requires forall i :: 0 <= i < |fields| ==> ',' !in fields[i]
    ensures multiset(Join(fields))[','] == if fields == [] then 0 else |fields| - 1
    decreases |fields|
  {
    if |fields| == 1 {
      assert ',' !in fields[0];
    } else if |fields| > 1 {
      CommasInJoin(fields[1..]);
      CommasAfterToken(fields[0], Join(fields[1..]));
    }
  }

  /**
   * A line has one field more than it has commas, one fewer if it ends with
   * a comma, and none if it is empty.
   */
  lemma FieldCount(s: string)
    ensures |Fields(s)| == multiset(s)[','] + (if s != [] && s[|s| - 1] != ',' then 1 else 0)
  {
    var fields := Fields(s);
    JoinFields(s);
    FieldsFromHaveNoComma(s, 0);
    CommasInJoin(fields);
    if s != [] && s[|s| - 1] == ',' {
      assert multiset(Join(fields) + [',']) == multiset(Join(fields)) + multiset([',']);
    }
  }

  /** The getline loop that collects every field of a line (the header loop of `loadData`). */
  method SplitFields(line: string) returns (fields: seq<string>)
    ensures fields == Fields(line)
  {
    fields := [];
    var pos := 0;
    var next := NextField(line, pos);
    while next.Some?
      invariant pos <= |line|
      invariant next == NextField(line, pos)
      invariant Fields(line) == fields + FieldsFrom(line, pos)
      decreases |line| - pos
    {
      fields := fields + [next.value.0];
      pos := next.value.1;
      next := NextField(line, pos);
    }
  }
}
