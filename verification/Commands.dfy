/** The statements of member-dragon, after parsing. */
module Commands {
  import opened Options
  import opened ResultSets

  datatype SetClause = SetClause(column: string, value: string)

  datatype OrderBy = OrderBy(column: string, direction: Direction)

  datatype Command =
    | NoCommand
    | InsertInto(table: string, columns: seq<string>, values: seq<string>)
    | SelectFrom(table: string, all: bool, columns: seq<string>, where: Option<Where>, orderBy: Option<OrderBy>,
                 limit: Option<nat>)
    | DeleteFrom(table: string, where: Option<Where>)
    | UpdateSet(table: string, sets: seq<SetClause>, where: Option<Where>)

  /** A table of the schema: its name and its column names. */
  datatype TableDef = TableDef(name: string, columns: seq<string>)
}
