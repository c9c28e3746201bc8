/**
 The document engine as its callers see it: a deterministic partial transaction function and
 a revision token computed from the document. Both are parameters, so every statement that
 takes an engine holds for all of them.
 */
module Engine {
  import opened Wrappers
  import opened DeckModel
  import opened Commands

  type Revision = string

  datatype Metadata = Metadata(
    transactionId: Id, actorId: string, origin: string, labelText: string, timestamp: string)

  datatype Engine = Engine(
    transact: (DeckDocument, seq<Command>, Metadata) -> Option<DeckDocument>,
    revision: DeckDocument -> Revision)

  /** Revision tokens tell these two documents apart. */
  predicate TokensTellApart(engine: Engine, left: DeckDocument, right: DeckDocument) {
    engine.revision(left) == engine.revision(right) ==> left == right
  }

  /** No command changes the identifier of the document. */
  ghost predicate KeepsDocumentId(engine: Engine) {
    forall document, commands, metadata ::
      engine.transact(document, commands, metadata).Some? ==>
      engine.transact(document, commands, metadata).value.id == document.id
  }

  /** The object both the host and a replica keep their document in. */
  class DocumentAdapter {
    var document: DeckDocument

    constructor (initial: DeckDocument)
      ensures document == initial
    {
      document := initial;
    }
  }
}
