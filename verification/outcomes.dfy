/*
 * The outcomes the C code reaches by printing a message and calling
 * `exit(EXIT_FAILURE)`, returned here as values instead.
 */
module Outcomes {

  /** Why an operation stopped the process. */
  datatype Fatal =
    | PageOutOfBounds              // a page number past the pager's TABLE_MAX_PAGES cache slots
    | ChildOutOfRange              // internal_node_child asked for a child past num_keys
    | UnimplementedParentUpdate    // a non-root leaf was split
    | UnimplementedInternalSearch  // table_find reached a root that is not a leaf

  datatype Result<T> = Ok(value: T) | Err(fatal: Fatal)
}
