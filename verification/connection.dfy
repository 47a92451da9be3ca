/** `ConnectionType.read` and `ConnectionType.write`: a synchronous block run in one fresh
    transaction over the committed state. A read returns the block's result; a write commits the
    state the block leaves before returning. */
module Connection {
  import opened Database

  function Read<O, R>(db: Store<O>, block: Store<O> -> R): R {
    block(db)
  }

  function Write<O>(db: Store<O>, block: Store<O> -> Store<O>): Store<O> {
    block(db)
  }
}
