/**
  What several services share of the GraphQL schema.
 */
module Schema {
  datatype CategoryKind = Expense | Income | Transfer
}
