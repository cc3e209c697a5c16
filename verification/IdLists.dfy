/** Lists of ids as they are kept in the files: one string, with commas between the ids. */
module IdLists {

  type Text = string

  function Join(ids: seq<Text>): Text {
    if ids == [] then "" else if |ids| == 1 then ids[0] else ids[0] + "," + Join(ids[1..])
  }

  /** Empty parts are kept: an empty string has one empty part. */
  function Split(text: Text): (parts: seq<Text>)
    ensures |parts| > 0
  {
    if text == "" then [""]
    else
      var rest := Split(text[1..]);
      if text[0] == ',' then [""] + rest else [[text[0]] + rest[0]] + rest[1..]
  }

  function ReadIds(text: Text): seq<Text> {
    if text == "" then [] else Split(text)
  }

  function RemoveOne(ids: seq<Text>, id: Text): seq<Text> {
    if ids == [] then [] else if ids[0] == id then ids[1..] else [ids[0]] + RemoveOne(ids[1..], id)
  }

  /** Adding an id in front, unless it is listed. */
  function WithId(text: Text, id: Text): Text {
    if id == "" || id in ReadIds(text) then text else Join([id] + ReadIds(text))
  }

  /** Removing an id. The empty string is split like any other. */
  function WithoutId(text: Text, id: Text): Text {
    if id == "" || id !in Split(text) then text else Join(RemoveOne(Split(text), id))
  }

  /** The id of a new object is put in front of the string itself. */
  function WithNewId(text: Text, id: Text): Text {
    if text == "" then id else id + "," + text
  }

  /** The id of a tag is put at the end of the string itself. */
  function WithLastId(text: Text, id: Text): Text {
    if text == "" then id else text + "," + id
  }

  predicate IsId(id: Text) {
    id != "" && ',' !in id
  }

  // Join and Split undo each other

  lemma {:induction false} SplitOfPart(part: Text, rest: Text)
    requires ',' !in part
    ensures Split(part + "," + rest) == [part] + Split(rest)
    ensures Split(part) == [part]
  {
    if part == "" {
      assert part + "," + rest == "," + rest;
    } else {
      SplitOfPart(part[1..], rest);
      assert (part + "," + rest)[1..] == part[1..] + "," + rest;
      assert part == [part[0]] + part[1..];
    }
  }

  lemma {:induction false} SplitOfJoin(ids: seq<Text>)
    requires ids != [] && forall id :: id in ids ==> ',' !in id
    ensures Split(Join(ids)) == ids
  {
    hide Split;
    assert ids == [ids[0]] + ids[1..];
    if |ids| == 1 {
      SplitOfPart(ids[0], "");
    } else {
      SplitOfJoin(ids[1..]);
      SplitOfPart(ids[0], Join(ids[1..]));
    }
  }

  lemma {:induction false} PartsHaveNoComma(text: Text)
    ensures forall part :: part in Split(text) ==> ',' !in part
  {
    if text != "" {
      PartsHaveNoComma(text[1..]);
      var rest := Split(text[1..]);
      assert forall part :: part in rest[1..] ==> part in rest;
      assert rest[0] in rest;
    }
  }

  lemma {:induction false} JoinOfSplit(text: Text)
    ensures Join(Split(text)) == text
  {
    if text != "" {
      var rest := Split(text[1..]);
      JoinOfSplit(text[1..]);
      if text[0] == ',' {
        assert ([""] + rest)[1..] == rest;
        assert text == "," + text[1..];
      } else {
        var parts := [[text[0]] + rest[0]] + rest[1..];
        assert parts[1..] == rest[1..];
        assert text == [text[0]] + text[1..];
      }
    }
  }

  lemma {:induction false} RemoveOneSubset(ids: seq<Text>, id: Text)
    ensures forall x :: x in RemoveOne(ids, id) ==> x in ids
    ensures id !in ids ==> RemoveOne(ids, id) == ids
  {
    if ids != [] {
      RemoveOneSubset(ids[1..], id);
    }
  }

  /** A list that is written and read again is the same list, unless it holds nothing but an empty id. */
  lemma WrittenIsReadIff(ids: seq<Text>)
    requires forall id :: id in ids ==> ',' !in id
    ensures ReadIds(Join(ids)) == ids <==> ids != [""]
  {
    if ids != [] {
      SplitOfJoin(ids);
    }
  }

  // The edits of strings are the edits of lists

  lemma WithIdReads(text: Text, id: Text)
    requires IsId(id)
    ensures ReadIds(WithId(text, id)) == if id in ReadIds(text) then ReadIds(text) else [id] + ReadIds(text)
  {
    PartsHaveNoComma(text);
    if id !in ReadIds(text) {
      var ids := [id] + ReadIds(text);
      assert ids[0] == id;
      WrittenIsReadIff(ids);
    }
  }

  /** Removal reads back as removal, except from a list of the id and one empty part. */
  lemma WithoutIdReadsIff(text: Text, id: Text)
    requires IsId(id)
    ensures ReadIds(WithoutId(text, id)) == RemoveOne(ReadIds(text), id)
            <==> !(id in ReadIds(text) && RemoveOne(ReadIds(text), id) == [""])
  {
    PartsHaveNoComma(text);
    RemoveOneSubset(ReadIds(text), id);
    if id in ReadIds(text) {
      WrittenIsReadIff(RemoveOne(ReadIds(text), id));
    }
  }

  lemma NewIdReads(text: Text, id: Text)
    requires IsId(id)
    ensures ReadIds(WithNewId(text, id)) == [id] + ReadIds(text)
  {
    SplitOfPart(id, text);
  }

  lemma LastIdReads(text: Text, id: Text)
    requires IsId(id)
    ensures ReadIds(WithLastId(text, id)) == ReadIds(text) + [id]
  {
    if text == "" {
      SplitOfPart(id, "");
    } else {
      PartsHaveNoComma(text);
      JoinOfSplit(text);
      JoinOfLast(Split(text), id);
      SplitOfJoin(Split(text) + [id]);
    }
  }

  lemma {:induction false} JoinOfLast(ids: seq<Text>, id: Text)
    requires ids != []
    ensures Join(ids + [id]) == Join(ids) + "," + id
  {
    if |ids| > 1 {
      JoinOfLast(ids[1..], id);
      assert (ids + [id])[1..] == ids[1..] + [id];
      assert ids[0] + "," + (Join(ids[1..]) + "," + id) == (ids[0] + "," + Join(ids[1..])) + "," + id;
    }
  }

  /** Only whole ids are kept by every edit. */
  predicate Stored(text: Text) {
    forall id :: id in ReadIds(text) ==> IsId(id)
  }

  lemma EditsKeepStored(text: Text, id: Text)
    requires Stored(text) && IsId(id)
    ensures Stored(WithId(text, id)) && Stored(WithoutId(text, id)) && Stored(WithNewId(text, id))
    ensures Stored(WithLastId(text, id))
    ensures ReadIds(WithoutId(text, id)) == RemoveOne(ReadIds(text), id)
  {
    WithIdReads(text, id);
    NewIdReads(text, id);
    LastIdReads(text, id);
    RemoveOneSubset(ReadIds(text), id);
    var rest := RemoveOne(ReadIds(text), id);
    assert "" in [""] && "" !in rest;
    WithoutIdReadsIff(text, id);
  }
}
