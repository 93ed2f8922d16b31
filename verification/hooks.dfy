/** The pieces of the analysis view whose behaviour lies outside its own source: helpers
    imported from the application's `views` module, `datetime` parsing and formatting,
    and `float()` on text. Each is a parameter of the model, so every property proved
    holds whatever they do. */
module Hooks {
  import opened Base

  datatype Hooks = Hooks(
    /** `detect_question_and_points_columns(columns)`: question and points headers. */
    detect: seq<string> -> (seq<string>, seq<string>),
    /** `extract_question_text(header)`: the display text of a question. */
    questionText: string -> string,
    /** `timestamp.strftime("%d-%m-%Y")` of a `pd.Timestamp`, by its instant. */
    stampDate: int -> string,
    /** `datetime.strptime(s, "%d-%m-%Y %I:%M:%S %p").strftime("%d-%m-%Y")`, or `None`
        where parsing raises. */
    parseFull: string -> Option<string>,
    /** `datetime.strptime(s, "%d-%m-%Y").strftime("%d-%m-%Y")`, or `None`. */
    parseDay: string -> Option<string>,
    /** `float(s)` of a text cell, or `None` where it raises `ValueError`. */
    parseFloat: string -> Option<real>
  )
}
