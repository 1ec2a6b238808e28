/** The data the search core works on: an optional value (an absent query
    parameter, a missing CSV cell), the stored student row, and the three
    columns a search returns. */
module Records {

  datatype Option<T> = None | Some(value: T)

  /** One row of the `students` table. `seatingNo` and `totalDegree` are the
      CSV cells as read (the degree is an opaque payload); `normalized` is the
      `arabic_name_normalized` column. */
  datatype Student = Student(
    seatingNo: Option<string>,
    arabicName: string,
    totalDegree: Option<string>,
    normalized: string)

  /** One element of the JSON array `/search` answers with:
      `arabic_name, seating_no, total_degree`. */
  datatype Hit = Hit(arabicName: string, seatingNo: Option<string>, totalDegree: Option<string>)

  function HitOf(x: Student): Hit {
    Hit(x.arabicName, x.seatingNo, x.totalDegree)
  }
}
