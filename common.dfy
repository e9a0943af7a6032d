/** Values shared by the three tables of the ultrasonics database. */
module Common {

  /** Python's `None` against a present value. */
  datatype Option<+T> = None | Some(value: T)

  /**
   * A serialised Python value (plugin settings, an applet plan, an applet's
   * last-run outcome). The database stores `str(value)` and hands back
   * `ast.literal_eval(text)`; the model keeps the value opaque and returns it
   * exactly as it was stored.
   */
  datatype Blob = Blob(text: string)
}
