/**
 * The corpus loader and the embedding stage (src/utils.py): parsed JSON records become
 * papers, each with an abstract and its co-author names, and every abstract is
 * encoded into one embedding row.
 */
module Papers {

  import opened Results
  import opened Vectors

  /** A key of a parsed JSON object: absent, present with value null, or present. */
  datatype Field<T> = Missing | Null | Value(value: T)

  datatype Person = Person(firstname: string, lastname: string)

  /** One entry of a record's `referenceAuthors` list. */
  datatype ReferenceAuthor = ReferenceAuthor(person: Person)

  /** One parsed record of the corpus file. */
  datatype Record = Record(abstractText: Field<string>, referenceAuthors: Field<seq<ReferenceAuthor>>)

  /** One row of the loaded table: the abstract's text and the co-author names. */
  datatype Paper = Paper(text: string, coAuthors: seq<string>)

  /** Iterating over a `referenceAuthors` value of null raises; the loader stops there. */
  datatype LoadError = AuthorsNotIterable(record: nat)

  /** A record whose abstract is null is skipped. */
  predicate Dropped(rec: Record) {
    rec.abstractText.Null?
  }

  /** A kept record whose author list is null makes the loader raise. */
  predicate Fails(rec: Record) {
    !Dropped(rec) && rec.referenceAuthors.Null?
  }

  /** The co-author names of an author list, in list order. */
  function CoAuthorNames(authors: seq<ReferenceAuthor>): (names: seq<string>)
    ensures |names| == |authors|
    ensures forall j :: 0 <= j < |authors| ==>
      names[j] == authors[j].person.firstname + " " + authors[j].person.lastname
  {
    if |authors| == 0 then []
    else
      var a := authors[|authors| - 1];
      CoAuthorNames(authors[..|authors| - 1]) + [a.person.firstname + " " + a.person.lastname]
  }

  /** The table row of a kept record: a missing abstract is the empty text, a missing author list is empty. */
  function ToPaper(rec: Record): (p: Paper)
    requires !Dropped(rec) && !Fails(rec)
    ensures rec.abstractText.Missing? ==> p.text == ""
    ensures rec.abstractText.Value? ==> p.text == rec.abstractText.value
    ensures rec.referenceAuthors.Missing? ==> p.coAuthors == []
    ensures rec.referenceAuthors.Value? ==>
      var authors := rec.referenceAuthors.value;
      |p.coAuthors| == |authors| &&
      forall j :: 0 <= j < |authors| ==>
        p.coAuthors[j] == authors[j].person.firstname + " " + authors[j].person.lastname
  {
    Paper(
      if rec.abstractText.Value? then rec.abstractText.value else "",
      if rec.referenceAuthors.Value? then CoAuthorNames(rec.referenceAuthors.value) else [])
  }

  /** The table the loader builds from `data`, or the error it raises. */
  function Normalize(data: seq<Record>): Result<seq<Paper>, LoadError> {
    if |data| == 0 then Ok([])
    else
      match Normalize(data[..|data| - 1])
      case Err(e) => Err(e)
      case Ok(papers) =>
        var rec := data[|data| - 1];
        if Dropped(rec) then Ok(papers)
        else if Fails(rec) then Err(AuthorsNotIterable(|data| - 1))
        else Ok(papers + [ToPaper(rec)])
  }

  /** The positions of the records the loader keeps. */
  function KeptIndices(data: seq<Record>): (ks: seq<nat>)
    ensures forall j :: 0 <= j < |ks| ==> ks[j] < |data| && !Dropped(data[ks[j]])
    ensures forall i :: 0 <= i < |data| && !Dropped(data[i]) ==> i in ks
    ensures forall p, q :: 0 <= p < q < |ks| ==> ks[p] < ks[q]
  {
    if |data| == 0 then []
    else
      var init := KeptIndices(data[..|data| - 1]);
      if Dropped(data[|data| - 1]) then init else init + [|data| - 1]
  }

  /** The loop of `load_papers` over the parsed records. */
  method LoadPapers(data: seq<Record>) returns (r: Result<seq<Paper>, LoadError>)
    ensures r == Normalize(data)
  {
    var papers: seq<Paper> := [];
    var i := 0;
    while i < |data|
      invariant 0 <= i <= |data|
      invariant Normalize(data[..i]) == Ok(papers)
    {
      assert data[..i + 1][..i] == data[..i];
      var rec := data[i];
      i := i + 1;
      if rec.abstractText.Null? {
        continue;
      }
      if rec.referenceAuthors.Null? {
        NormalizeErrorClosed(data, i);
        return Err(AuthorsNotIterable(i - 1));
      }
      var coAuthors := CoAuthorNames(if rec.referenceAuthors.Value? then rec.referenceAuthors.value else []);
      var text := if rec.abstractText.Value? then rec.abstractText.value else "";
      papers := papers + [Paper(text, coAuthors)];
    }
    assert data[..i] == data;
    r := Ok(papers);
  }

  lemma {:induction false} NormalizeErrorClosed(data: seq<Record>, n: nat)
    requires n <= |data| && Normalize(data[..n]).Err?
    ensures Normalize(data) == Normalize(data[..n])
    decreases |data| - n
  {
    if n < |data| {
      assert data[..n + 1][..n] == data[..n];
      NormalizeErrorClosed(data, n + 1);
    } else {
      assert data[..n] == data;
    }
  }

  /**
   * The loader fails exactly when some kept record has a null author list, and it
   * reports the first such record.
   */
  lemma {:induction false} LoadFailure(data: seq<Record>)
    ensures Normalize(data).Err? <==> exists i :: 0 <= i < |data| && Fails(data[i])
    ensures Normalize(data).Err? ==>
      var i := Normalize(data).error.record;
      i < |data| && Fails(data[i]) && forall j :: 0 <= j < i ==> !Fails(data[j])
  {
    if |data| > 0 {
      var init := data[..|data| - 1];
      LoadFailure(init);
      assert forall j :: 0 <= j < |init| ==> init[j] == data[j];
    }
  }

  /**
   * A successful load keeps, in input order, exactly the records whose abstract is not
   * null, one paper per kept record.
   */
  lemma {:induction false} LoadedPapers(data: seq<Record>)
    requires Normalize(data).Ok?
    ensures var papers, ks := Normalize(data).value, KeptIndices(data);
      && |papers| == |ks|
      && forall j :: 0 <= j < |ks| ==> !Fails(data[ks[j]]) && papers[j] == ToPaper(data[ks[j]])
  {
    if |data| > 0 {
      var init := data[..|data| - 1];
      assert Normalize(init).Ok?;
      LoadedPapers(init);
      assert forall j :: 0 <= j < |init| ==> init[j] == data[j];
    }
  }

  /** A paper together with the embedding of its abstract. */
  datatype EmbeddedPaper = EmbeddedPaper(text: string, coAuthors: seq<string>, embedding: Vector)

  /** Stacking the rows fails on an empty table or on rows of different lengths. */
  datatype EmbedError = EmptyCorpus | RaggedEmbeddings

  /** Every embedding has the same number of components. */
  ghost predicate SameDimension(papers: seq<EmbeddedPaper>) {
    forall i, j :: 0 <= i < |papers| && 0 <= j < |papers| ==>
      |papers[i].embedding| == |papers[j].embedding|
  }

  /** The embedding of every abstract, in table order. */
  function EncodeAll(papers: seq<Paper>, encode: string -> Vector): (rows: seq<Vector>)
    ensures |rows| == |papers|
    ensures forall i :: 0 <= i < |papers| ==> rows[i] == encode(papers[i].text)
  {
    if |papers| == 0 then []
    else EncodeAll(papers[..|papers| - 1], encode) + [encode(papers[|papers| - 1].text)]
  }

  predicate Rectangular(rows: seq<Vector>) {
    forall i :: 0 <= i < |rows| ==> |rows[i]| == |rows[0]|
  }

  /**
   * `generate_embeddings`: the stacked embedding matrix, one row per paper in table
   * order, and the table with each paper's embedding attached.
   */
  function GenerateEmbeddings(papers: seq<Paper>, encode: string -> Vector)
    : (r: Result<(seq<Vector>, seq<EmbeddedPaper>), EmbedError>)
    ensures r == Err(EmptyCorpus) <==> |papers| == 0
    ensures r == Err(RaggedEmbeddings) <==>
      |papers| > 0 &&
      (exists i :: 0 <= i < |papers| && |encode(papers[i].text)| != |encode(papers[0].text)|)
    ensures r.Ok? ==>
      var (matrix, embedded) := r.value;
      && |matrix| == |papers| && |embedded| == |papers|
      && SameDimension(embedded)
      && forall i :: 0 <= i < |papers| ==>
           && matrix[i] == encode(papers[i].text)
           && embedded[i] == EmbeddedPaper(papers[i].text, papers[i].coAuthors, matrix[i])
  {
    if |papers| == 0 then Err(EmptyCorpus)
    else
      var rows := EncodeAll(papers, encode);
      if !Rectangular(rows) then Err(RaggedEmbeddings)
      else
        Ok((rows, seq(|papers|, i requires 0 <= i < |papers| =>
                 EmbeddedPaper(papers[i].text, papers[i].coAuthors, rows[i]))))
  }

}
