/** The output file as both message handlers use it. */
module OutputFile {

  /** Whether writing one record line to the open output file returns. `false`
      stands for the exception the write raises instead: an encoding error for
      a character the file's encoding cannot hold, or an OSError. A write that
      raises adds nothing to the file. */
  type Writer = string -> bool
}
