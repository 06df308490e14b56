/** The record both generators emit, one per compiled source file. */
module CompileDb {

  /** One `compile_commands.json` entry: the directory the compiler runs in,
      the source file and the whole command line as a single string. */
  datatype Entry = Entry(directory: string, file: string, command: string)
}
