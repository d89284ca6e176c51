/** The errors of tree construction and validation (tech_tree/src/model/error.rs, plus Cycle). */
module Error {

  datatype AddError =
    | InvalidName(name: string)
    | NameExists(name: string)
    | UnknownPredecessor(name: string)
    | Cycle(names: seq<string>)
}
