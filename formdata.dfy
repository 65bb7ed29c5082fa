/** The parsing half of `save_to_db` (main.py:85-86):

      data = unquote_plus(data)
      parse_data = dict([i.split("=") for i in data.split("&")])

    The whole payload is decoded BEFORE it is split, so an escaped `%26` or
    `%3D` acts as a separator exactly like a literal `&` or `=`. `dict()`
    accepts a list element only when it has exactly two items, so every piece
    must contain exactly one `=`; later pieces overwrite earlier ones with the
    same key. */
module FormData {
  import opened Results
  import opened Strings
  import opened Unquote

  /** The ValueError `dict()` raises: "dictionary update sequence element
      #index has length length; 2 is required". */
  datatype ParseError = PairLength(index: nat, length: nat)

  type Record = map<string, string>

  /** The decoded payload split on `&`. */
  function Pieces(data: string): (pieces: seq<string>)
    ensures |pieces| >= 1
    ensures Join(pieces, '&') == UnquotePlus(data)
  {
    Split(UnquotePlus(data), '&')
  }

  /** The text before the piece's first `=` (the whole piece if there is none). */
  function FieldName(piece: string): string {
    Split(piece, '=')[0]
  }

  function FieldValue(piece: string): string
    requires |Split(piece, '=')| == 2
  {
    Split(piece, '=')[1]
  }

  /** A piece `dict()` accepts: `key=value` with exactly one `=`. */
  predicate IsPair(piece: string) {
    |Split(piece, '=')| == 2
  }

  /** The pieces split on `=` and checked as `dict()` checks them, in order:
      either every piece is a pair, or the error names the first one that
      is not, with its number of parts. */
  function Pairs(pieces: seq<string>): (r: Result<seq<(string, string)>, ParseError>)
    ensures r.Ok? <==> forall i :: 0 <= i < |pieces| ==> IsPair(pieces[i])
    ensures r.Ok? ==> |r.value| == |pieces|
    ensures r.Ok? ==> forall i :: 0 <= i < |pieces| ==>
      && pieces[i] == r.value[i].0 + "=" + r.value[i].1
      && '=' !in r.value[i].0 && '=' !in r.value[i].1
    ensures r.Err? ==>
      && r.error.index < |pieces|
      && r.error.length == |Split(pieces[r.error.index], '=')| != 2
      && forall i :: 0 <= i < r.error.index ==> IsPair(pieces[i])
    decreases |pieces|
  {
    if pieces == [] then Ok([])
    else
      var parts := Split(pieces[0], '=');
      if |parts| != 2 then Err(PairLength(0, |parts|))
      else
        assert Join(parts[1..], '=') == parts[1];
        assert pieces[0] == Join(parts, '=') == parts[0] + "=" + parts[1];
        match Pairs(pieces[1..])
        case Err(e) =>
          Err(PairLength(e.index + 1, e.length))
        case Ok(rest) =>
          Ok([(parts[0], parts[1])] + rest)
  }

  /** Whether no later pair repeats the key of pair `i`. */
  predicate IsLastFor(pairs: seq<(string, string)>, i: nat)
    requires i < |pairs|
  {
    forall j :: i < j < |pairs| ==> pairs[j].0 != pairs[i].0
  }

  /** The keys of a sequence of pairs, whatever it maps them to. */
  lemma KeysStep(pairs: seq<(string, string)>, front: Record)
    requires pairs != []
    requires front.Keys == set i | 0 <= i < |pairs| - 1 :: pairs[i].0
    ensures front[pairs[|pairs| - 1].0 := pairs[|pairs| - 1].1].Keys == set i | 0 <= i < |pairs| :: pairs[i].0
  {
    var n := |pairs| - 1;
    var m := front[pairs[n].0 := pairs[n].1];
    forall k | k in m.Keys ensures exists i :: 0 <= i < |pairs| && pairs[i].0 == k {
      if k != pairs[n].0 {
        var i :| 0 <= i < n && pairs[i].0 == k;
      }
    }
  }

  /** `dict(pairs)`: the keys are exactly the pairs' keys; DictOfLast says
      which value each key keeps. */
  function DictOf(pairs: seq<(string, string)>): (m: Record)
    ensures m.Keys == set i | 0 <= i < |pairs| :: pairs[i].0
    decreases |pairs|
  {
    if pairs == [] then map[]
    else
      var n := |pairs| - 1;
      var front := DictOf(pairs[..n]);
      assert forall i :: 0 <= i < n ==> pairs[..n][i] == pairs[i];
      KeysStep(pairs, front);
      front[pairs[n].0 := pairs[n].1]
  }

  /** Each key maps to the value of its last occurrence: a later pair with the
      same key overwrites an earlier one. */
  lemma {:induction false} DictOfLast(pairs: seq<(string, string)>, i: nat)
    requires i < |pairs| && IsLastFor(pairs, i)
    ensures pairs[i].0 in DictOf(pairs) && DictOf(pairs)[pairs[i].0] == pairs[i].1
    decreases |pairs|
  {
    var n := |pairs| - 1;
    if i < n {
      var front := pairs[..n];
      assert front[i] == pairs[i];
      assert pairs[n].0 != pairs[i].0;
      assert IsLastFor(front, i) by {
        forall j | i < j < |front| ensures front[j].0 != front[i].0 {
          assert front[j] == pairs[j];
        }
      }
      DictOfLast(front, i);
    }
  }

  /** `save_to_db`'s parse: decode, split on `&`, split each piece on `=`,
      build the dictionary. */
  function Parse(data: string): (r: Result<Record, ParseError>)
    ensures r.Err? ==> r.error.index < |Pieces(data)| && !IsPair(Pieces(data)[r.error.index])
  {
    match Pairs(Pieces(data))
    case Err(e) => Err(e)
    case Ok(pairs) => Ok(DictOf(pairs))
  }

  /** Whether no later piece carries the field name of piece `i`. */
  predicate IsLastName(pieces: seq<string>, i: nat)
    requires i < |pieces|
  {
    forall j :: i < j < |pieces| ==> FieldName(pieces[j]) != FieldName(pieces[i])
  }

  /** The pairs `dict()` receives are the pieces' names and values. */
  lemma PairsAreFields(pieces: seq<string>)
    requires Pairs(pieces).Ok?
    ensures forall i :: 0 <= i < |pieces| ==>
      IsPair(pieces[i]) && Pairs(pieces).value[i] == (FieldName(pieces[i]), FieldValue(pieces[i]))
  {
    var pairs := Pairs(pieces).value;
    forall i | 0 <= i < |pieces|
      ensures IsPair(pieces[i]) && pairs[i] == (FieldName(pieces[i]), FieldValue(pieces[i]))
    {
      SplitAfter(pairs[i].0, '=', pairs[i].1);
      SplitWithout(pairs[i].1, '=');
    }
  }

  /** Parsing succeeds exactly when every decoded piece holds exactly one `=`:
      a piece without `=` or with a second `=` makes `dict()` raise. */
  lemma ParseSucceedsIff(data: string)
    ensures Parse(data).Ok? <==>
      forall i :: 0 <= i < |Pieces(data)| ==> multiset(Pieces(data)[i])['='] == 1
  {
    var pieces := Pieces(data);
    forall i | 0 <= i < |pieces| ensures IsPair(pieces[i]) <==> multiset(pieces[i])['='] == 1 {
      SplitCount(pieces[i], '=');
    }
  }

  /** On success the record's keys are exactly the pieces' field names. */
  lemma ParseKeys(data: string)
    requires Parse(data).Ok?
    ensures forall k :: k in Parse(data).value <==>
      exists i :: 0 <= i < |Pieces(data)| && FieldName(Pieces(data)[i]) == k
  {
    var pieces := Pieces(data);
    var pairs := Pairs(pieces).value;
    PairsAreFields(pieces);
    forall k | k in Parse(data).value
      ensures exists i :: 0 <= i < |pieces| && FieldName(pieces[i]) == k
    {
      var i :| 0 <= i < |pairs| && pairs[i].0 == k;
      assert FieldName(pieces[i]) == k;
    }
    forall k | exists i :: 0 <= i < |pieces| && FieldName(pieces[i]) == k
      ensures k in Parse(data).value
    {
      var i :| 0 <= i < |pieces| && FieldName(pieces[i]) == k;
      assert pairs[i].0 == k;
    }
  }

  lemma DictOfLastName(pieces: seq<string>, i: nat)
    requires Pairs(pieces).Ok?
    requires i < |pieces| && IsLastName(pieces, i)
    ensures && IsPair(pieces[i])
            && FieldName(pieces[i]) in DictOf(Pairs(pieces).value)
            && DictOf(Pairs(pieces).value)[FieldName(pieces[i])] == FieldValue(pieces[i])
  {
    var pairs := Pairs(pieces).value;
    PairsAreFields(pieces);
    forall j | i < j < |pairs| ensures pairs[j].0 != pairs[i].0 {
      assert FieldName(pieces[j]) != FieldName(pieces[i]);
    }
    DictOfLast(pairs, i);
  }

  /** On success a field name maps to the value of the LAST piece carrying it:
      duplicate keys keep their last value. */
  lemma ParseLastWins(data: string, i: nat)
    requires Parse(data).Ok?
    requires i < |Pieces(data)| && IsLastName(Pieces(data), i)
    ensures && IsPair(Pieces(data)[i])
            && FieldName(Pieces(data)[i]) in Parse(data).value
            && Parse(data).value[FieldName(Pieces(data)[i])] == FieldValue(Pieces(data)[i])
  {
    DictOfLastName(Pieces(data), i);
  }

  /** `key=value`: a field written out before any encoding. */
  function FieldText(f: (string, string)): string {
    f.0 + "=" + f.1
  }

  function Texts(fields: seq<(string, string)>): (texts: seq<string>)
    ensures |texts| == |fields|
    ensures forall i :: 0 <= i < |fields| ==> texts[i] == FieldText(fields[i])
    decreases |fields|
  {
    if fields == [] then [] else [FieldText(fields[0])] + Texts(fields[1..])
  }

  /** Fields neither of whose halves holds a separator. */
  predicate WithoutSeparators(fields: seq<(string, string)>) {
    forall i :: 0 <= i < |fields| ==>
      '&' !in fields[i].0 && '&' !in fields[i].1 && '=' !in fields[i].0 && '=' !in fields[i].1
  }

  predicate AsciiFields(fields: seq<(string, string)>) {
    forall i :: 0 <= i < |fields| ==> IsAscii(fields[i].0) && IsAscii(fields[i].1)
  }

  function EncodeField(f: (string, string)): string
    requires IsAscii(f.0) && IsAscii(f.1)
  {
    FormEncode(f.0) + "=" + FormEncode(f.1)
  }

  /** The payload a browser posts for a form with these fields. */
  function Serialize(fields: seq<(string, string)>): string
    requires |fields| >= 1 && AsciiFields(fields)
    decreases |fields|
  {
    if |fields| == 1 then EncodeField(fields[0])
    else EncodeField(fields[0]) + "&" + Serialize(fields[1..])
  }

  /** Parse sees the payload only through its decoding. */
  lemma ParseDependsOnDecoding(a: string, b: string)
    requires UnquotePlus(a) == UnquotePlus(b)
    ensures Parse(a) == Parse(b)
  {
  }

  lemma UnquoteField(f: (string, string), rest: string)
    requires IsAscii(f.0) && IsAscii(f.1)
    ensures UnquotePlus(EncodeField(f) + rest) == FieldText(f) + UnquotePlus(rest)
  {
    var tail := FormEncode(f.1) + rest;
    assert EncodeField(f) + rest == FormEncode(f.0) + (['='] + tail);
    UnquotePlusEncodedPrefix(f.0, ['='] + tail);
    UnquotePlusLiteral('=', tail);
    UnquotePlusEncodedPrefix(f.1, rest);
    assert f.0 + (['='] + (f.1 + UnquotePlus(rest))) == FieldText(f) + UnquotePlus(rest);
  }

  /** Decoding a browser's payload gives the fields written out as
      `key=value` and joined by `&`. */
  lemma {:induction false} UnquoteSerialize(fields: seq<(string, string)>)
    requires |fields| >= 1 && AsciiFields(fields)
    ensures UnquotePlus(Serialize(fields)) == Join(Texts(fields), '&')
    decreases |fields|
  {
    var head, texts := fields[0], Texts(fields);
    if |fields| == 1 {
      UnquoteField(head, []);
      assert EncodeField(head) + [] == EncodeField(head);
      assert FieldText(head) + [] == FieldText(head);
    } else {
      var rest := Serialize(fields[1..]);
      var decodedRest := UnquotePlus(rest);
      assert Serialize(fields) == EncodeField(head) + (['&'] + rest);
      UnquoteField(head, ['&'] + rest);
      UnquotePlusLiteral('&', rest);
      assert UnquotePlus(Serialize(fields)) == FieldText(head) + (['&'] + decodedRest);
      UnquoteSerialize(fields[1..]);
      assert texts[1..] == Texts(fields[1..]);
      assert Join(texts, '&') == texts[0] + ['&'] + Join(texts[1..], '&');
    }
  }

  lemma SplitFieldText(f: (string, string))
    requires '=' !in f.0 && '=' !in f.1
    ensures Split(FieldText(f), '=') == [f.0, f.1]
  {
    SplitAfter(f.0, '=', f.1);
    SplitWithout(f.1, '=');
  }

  lemma TextsWithoutAmpersand(fields: seq<(string, string)>)
    requires WithoutSeparators(fields)
    ensures forall i :: 0 <= i < |Texts(fields)| ==> '&' !in Texts(fields)[i]
  {
    forall i | 0 <= i < |fields| ensures '&' !in Texts(fields)[i] {
      var f := fields[i];
      assert Texts(fields)[i] == f.0 + (['='] + f.1);
    }
  }

  /** `dict()` receives exactly the fields back. */
  lemma PairsOfTexts(fields: seq<(string, string)>)
    requires WithoutSeparators(fields)
    ensures Pairs(Texts(fields)) == Ok(fields)
  {
    var texts := Texts(fields);
    forall i | 0 <= i < |texts| ensures IsPair(texts[i]) {
      SplitFieldText(fields[i]);
    }
    var pairs := Pairs(texts).value;
    forall i | 0 <= i < |fields| ensures pairs[i] == fields[i] {
      SplitFieldText(fields[i]);
      SplitFieldText(pairs[i]);
    }
    assert pairs == fields;
  }

  /** Any payload that decodes to separator-free fields written out and
      joined parses to `dict()` of those fields. */
  lemma ParseDecodedFields(data: string, fields: seq<(string, string)>)
    requires |fields| >= 1 && WithoutSeparators(fields)
    requires UnquotePlus(data) == Join(Texts(fields), '&')
    ensures Parse(data) == Ok(DictOf(fields))
  {
    TextsWithoutAmpersand(fields);
    SplitJoin(Texts(fields), '&');
    PairsOfTexts(fields);
  }

  /** The round trip: what a browser posts for separator-free ASCII fields
      parses back to those fields, the last value winning for a repeated
      name. */
  lemma ParseSerialize(fields: seq<(string, string)>)
    requires |fields| >= 1 && AsciiFields(fields) && WithoutSeparators(fields)
    ensures Parse(Serialize(fields)) == Ok(DictOf(fields))
  {
    UnquoteSerialize(fields);
    ParseDecodedFields(Serialize(fields), fields);
  }

  /** Decoding before splitting: a field whose name or value holds `=` is
      posted as `%3D`, decoded back to `=`, and then the piece has two `=`
      and the whole submission is rejected (`a=x%3Dy`, the posting of the
      field `a` with value `x=y`, fails). */
  lemma ParseRejectsEncodedEquals(fields: seq<(string, string)>, i: nat)
    requires |fields| >= 1 && AsciiFields(fields)
    requires forall j :: 0 <= j < |fields| ==> '&' !in fields[j].0 && '&' !in fields[j].1
    requires i < |fields| && ('=' in fields[i].0 || '=' in fields[i].1)
    ensures Parse(Serialize(fields)).Err?
  {
    var texts := Texts(fields);
    UnquoteSerialize(fields);
    SplitJoin(texts, '&');
    assert Pieces(Serialize(fields)) == texts;
    var t := texts[i];
    assert t == fields[i].0 + ['='] + fields[i].1;
    assert multiset(t) == multiset(fields[i].0) + multiset(['=']) + multiset(fields[i].1);
    assert multiset(t)['='] >= 2;
    ParseSucceedsIff(Serialize(fields));
  }

  /** Decoding before splitting: a value holding `&k=v` is posted as
      `%26k%3Dv`, yet it is stored as a separate field `k`, exactly as if
      the client had submitted two fields. */
  lemma ParseSplitsEncodedAmpersand(name: string, v1: string, k: string, v2: string)
    requires IsAscii(name) && IsAscii(v1) && IsAscii(k) && IsAscii(v2)
    requires WithoutSeparators([(name, v1), (k, v2)])
    ensures Parse(Serialize([(name, v1 + "&" + k + "=" + v2)])) == Ok(DictOf([(name, v1), (k, v2)]))
  {
    var one := [(name, v1 + "&" + k + "=" + v2)];
    var two := [(name, v1), (k, v2)];
    UnquoteSerialize(one);
    assert Texts(two)[1..] == [FieldText((k, v2))];
    assert Join(Texts(one), '&') == Join(Texts(two), '&');
    ParseDecodedFields(Serialize(one), two);
  }

  /** The empty payload is rejected: `"".split("&")` is `[""]`, a piece with
      no `=`. */
  lemma ParseEmpty()
    ensures Parse("") == Err(PairLength(0, 1))
  {
    assert UnquotePlus("") == "";
  }

  /** Text that is its own decoding and holds no separator. */
  predicate IsLiteral(s: string) {
    '%' !in s && '+' !in s && '&' !in s && '=' !in s
  }

  lemma DictOfRepeated(k: string, v1: string, v2: string)
    ensures DictOf([(k, v1), (k, v2)]) == map[k := v2]
  {
    var fields := [(k, v1), (k, v2)];
    assert fields[..1] == [(k, v1)] && [(k, v1)][..0] == [];
    assert DictOf(fields) == map[k := v1][k := v2];
  }

  /** A repeated name keeps its last value (`a=1&a=2` stores `a` as `2`). */
  lemma ParseDuplicateName(k: string, v1: string, v2: string)
    requires IsLiteral(k) && IsLiteral(v1) && IsLiteral(v2)
    ensures Parse(k + "=" + v1 + "&" + k + "=" + v2) == Ok(map[k := v2])
  {
    var data := k + "=" + v1 + "&" + k + "=" + v2;
    var fields := [(k, v1), (k, v2)];
    var texts := Texts(fields);
    assert texts[1..] == [FieldText((k, v2))];
    assert Join(texts, '&') == data;
    UnquotePlusPlain(data);
    ParseDecodedFields(data, fields);
    DictOfRepeated(k, v1, v2);
  }

  /** A single `name=value` piece is stored as that one field; the name or
      the value may be empty (`=b`, `a=`). */
  lemma ParseSingleField(k: string, v: string)
    requires IsLiteral(k) && IsLiteral(v)
    ensures Parse(k + "=" + v) == Ok(map[k := v])
  {
    var fields := [(k, v)];
    assert Join(Texts(fields), '&') == k + "=" + v;
    UnquotePlusPlain(k + "=" + v);
    ParseDecodedFields(k + "=" + v, fields);
    assert DictOf(fields).Keys == {k} by {
      assert fields[0].0 in DictOf(fields).Keys;
    }
  }
}
