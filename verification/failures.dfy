/** The exceptions the converter can raise while reading a document. None is
    caught, so each one ends the whole conversion. */
module Failures {

  datatype Failure =
    | EmptyColorToken            // str.at(0) on an empty colour token
    | UnknownColorName(name: string)  // COLORS.at(name) for a name not in the table
    | MissingAttribute(name: string)  // a std::string built from an absent attribute
    | MissingComma(piece: string)     // piece.at(piece.find(',')) with no comma
}
