/** The client-scoped vector store of the backend
    (`services/neo4j_store.py`): chunks become documents tagged with the
    client they were uploaded for, and search keeps only that client's
    documents from twice as many candidates. The vector index itself, its
    embedding and its similarity ranking are parameters. */
module VectorStore {
  import opened Wrappers
  import Seqs
  import DocumentProcessor

  const NotInitializedMessage: string := "Vector store not initialized"

  /** The metadata keys a stored document carries; a key may be absent on a
      document the index returns. */
  datatype Metadata = Metadata(
    source: Option<string>,
    location: Option<string>,
    chunkId: Option<string>,
    clientDocId: Option<string>,
    clientName: Option<string>)

  datatype Document = Document(pageContent: string, metadata: Metadata)

  /** The document for one chunk: the chunk's own text, source, location and
      id, but the client given to the call. */
  function DocumentOf(chunk: DocumentProcessor.Chunk, clientDocId: string, clientName: string): (d: Document)
    ensures d.pageContent == chunk.text
    ensures d.metadata.clientDocId == Some(clientDocId) && d.metadata.clientName == Some(clientName)
    ensures d.metadata.source == Some(chunk.source) && d.metadata.location == Some(chunk.location)
    ensures d.metadata.chunkId == Some(chunk.chunkId)
  {
    Document(chunk.text, Metadata(Some(chunk.source), Some(chunk.location), Some(chunk.chunkId), Some(clientDocId), Some(clientName)))
  }

  function ToDocument(clientDocId: string, clientName: string): DocumentProcessor.Chunk -> Document {
    (chunk: DocumentProcessor.Chunk) => DocumentOf(chunk, clientDocId, clientName)
  }

  /** `add_documents_for_client`: an uninitialised store refuses; otherwise
      one document per chunk, in order, is handed to the index, whose own
      failure is passed on. On success the result is what was stored. */
  function AddDocumentsForClient(
    initialized: bool, chunks: seq<DocumentProcessor.Chunk>, clientDocId: string, clientName: string,
    addDocuments: seq<Document> -> Option<string>): (r: Result<seq<Document>, string>)
    ensures !initialized ==> r == Failure(NotInitializedMessage)
    ensures r.Success? ==> initialized && |r.value| == |chunks|
    ensures r.Success? ==> forall i :: 0 <= i < |chunks| ==>
      && r.value[i].pageContent == chunks[i].text
      && r.value[i].metadata.clientDocId == Some(clientDocId)
      && r.value[i].metadata.clientName == Some(clientName)
      && r.value[i].metadata.chunkId == Some(chunks[i].chunkId)
    // document i is chunk i's document, source and location included
    ensures r.Success? ==> forall i :: 0 <= i < |chunks| ==> r.value[i] == DocumentOf(chunks[i], clientDocId, clientName)
    ensures initialized ==> (r.Failure? <==> addDocuments(Seqs.Map(chunks, ToDocument(clientDocId, clientName))).Some?)
    ensures initialized && r.Failure? ==> r.error == addDocuments(Seqs.Map(chunks, ToDocument(clientDocId, clientName))).value
  {
    if !initialized then Failure(NotInitializedMessage)
    else
      var documents := Seqs.Map(chunks, ToDocument(clientDocId, clientName));
      match addDocuments(documents)
      case Some(e) => Failure(e)
      case None => Success(documents)
  }

  /** Python's `s[:k]`: a negative bound counts from the end. */
  function PyPrefix<T>(s: seq<T>, k: int): (r: seq<T>)
    ensures r <= s
    ensures k >= 0 ==> |r| == if k <= |s| then k else |s|
    ensures k < 0 ==> |r| == if |s| + k >= 0 then |s| + k else 0
  {
    if k >= 0 then (if k <= |s| then s[..k] else s)
    else if |s| + k >= 0 then s[..|s| + k]
    else []
  }

  function ForClient(clientDocId: string): Document -> bool {
    (d: Document) => d.metadata.clientDocId == Some(clientDocId)
  }

  /** `search_by_client`: an uninitialised store refuses; otherwise ask the
      index for `2k` candidates, keep those of the client in rank order, and
      return the first `k` of them. A failing index search is passed on. */
  function SearchByClient(
    initialized: bool, query: string, clientDocId: string, k: int,
    similaritySearch: (string, int) -> Result<seq<Document>, string>): (r: Result<seq<Document>, string>)
    ensures !initialized ==> r == Failure(NotInitializedMessage)
    ensures initialized && similaritySearch(query, k * 2).Failure? ==> r == Failure(similaritySearch(query, k * 2).error)
    ensures r.Success? ==> forall d :: d in r.value ==> d.metadata.clientDocId == Some(clientDocId)
    ensures r.Success? && k >= 0 ==> |r.value| <= k
    ensures r.Success? ==> r.value <= Seqs.Filter(similaritySearch(query, k * 2).value, ForClient(clientDocId))
  {
    if !initialized then Failure(NotInitializedMessage)
    else
      match similaritySearch(query, k * 2)
      case Failure(e) => Failure(e)
      case Success(results) =>
        var filtered := Seqs.Filter(results, ForClient(clientDocId));
        var top := PyPrefix(filtered, k);
        assert forall d :: d in top ==> d in filtered by {
          forall d | d in top
            ensures d in filtered
          {
            var i :| 0 <= i < |top| && top[i] == d;
            assert filtered[i] == d;
          }
        }
        Success(top)
  }

  /** Search falls short of `k` only when the client has fewer candidates:
      with `k >= 0` it returns exactly the first `min(k, n)` of the `n`
      candidates that belong to the client. */
  lemma SearchTakesAllItCan(
    query: string, clientDocId: string, k: nat,
    similaritySearch: (string, int) -> Result<seq<Document>, string>)
    requires similaritySearch(query, k * 2).Success?
    ensures var filtered := Seqs.Filter(similaritySearch(query, k * 2).value, ForClient(clientDocId));
      SearchByClient(true, query, clientDocId, k, similaritySearch) == Success(if k <= |filtered| then filtered[..k] else filtered)
  {
  }

  /** A client's candidate is never lost to another client's: if the index
      ranks at most `k` of this client's documents among its candidates,
      search returns every one of them. */
  lemma {:induction false} EveryCandidateReturned(
    query: string, clientDocId: string, k: nat,
    similaritySearch: (string, int) -> Result<seq<Document>, string>, d: Document)
    requires similaritySearch(query, k * 2).Success?
    requires d in similaritySearch(query, k * 2).value && d.metadata.clientDocId == Some(clientDocId)
    requires |Seqs.Filter(similaritySearch(query, k * 2).value, ForClient(clientDocId))| <= k
    ensures SearchByClient(true, query, clientDocId, k, similaritySearch).Success?
    ensures d in SearchByClient(true, query, clientDocId, k, similaritySearch).value
  {
    var filtered := Seqs.Filter(similaritySearch(query, k * 2).value, ForClient(clientDocId));
    assert ForClient(clientDocId)(d);
    assert d in filtered;
    SearchTakesAllItCan(query, clientDocId, k, similaritySearch);
  }

  /** Documents another client uploaded never appear in a search. */
  lemma OtherClientsExcluded(
    initialized: bool, query: string, clientDocId: string, other: string, k: int,
    similaritySearch: (string, int) -> Result<seq<Document>, string>, d: Document)
    requires other != clientDocId && d.metadata.clientDocId == Some(other)
    requires SearchByClient(initialized, query, clientDocId, k, similaritySearch).Success?
    ensures d !in SearchByClient(initialized, query, clientDocId, k, similaritySearch).value
  {
  }

  /** What is added for a client is found for that client: a stored document
      ranked among the candidates, with few enough of the client's documents
      ahead of it, is returned by a search for the same client. */
  lemma AddedDocumentFound(
    chunks: seq<DocumentProcessor.Chunk>, clientDocId: string, clientName: string,
    addDocuments: seq<Document> -> Option<string>, i: nat,
    query: string, k: nat, similaritySearch: (string, int) -> Result<seq<Document>, string>)
    requires AddDocumentsForClient(true, chunks, clientDocId, clientName, addDocuments).Success?
    requires i < |chunks|
    requires similaritySearch(query, k * 2).Success?
    requires AddDocumentsForClient(true, chunks, clientDocId, clientName, addDocuments).value[i] in similaritySearch(query, k * 2).value
    requires |Seqs.Filter(similaritySearch(query, k * 2).value, ForClient(clientDocId))| <= k
    ensures AddDocumentsForClient(true, chunks, clientDocId, clientName, addDocuments).value[i]
      in SearchByClient(true, query, clientDocId, k, similaritySearch).value
  {
    var d := AddDocumentsForClient(true, chunks, clientDocId, clientName, addDocuments).value[i];
    EveryCandidateReturned(query, clientDocId, k, similaritySearch, d);
  }
}
