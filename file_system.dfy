/**
 * The file system effects of the splitting service: directories that exist
 * and the documents written, in the order they were written.
 */
module FileSystem {

  /** A generated word-processing document: one paragraph holding `text`. Its bytes are not modelled. */
  datatype Document = SingleParagraph(text: string)

  /** One `writeFileSync(path, bytes)` call. */
  datatype FileWrite = FileWrite(path: string, doc: Document)

  class Disk {
    /** Directories that exist. */
    var dirs: set<string>
    /** Every file written, oldest first. */
    var written: seq<FileWrite>

    constructor (dirs: set<string>)
      ensures this.dirs == dirs && written == []
    {
      this.dirs := dirs;
      written := [];
    }

    /** `if (!existsSync(dir)) mkdirSync(dir, { recursive: true })`. */
    method EnsureDir(dir: string)
      modifies this
      ensures dirs == old(dirs) + {dir}
      ensures written == old(written)
    {
      if dir !in dirs {
        dirs := dirs + {dir};
      }
    }

    /** `writeFileSync(path, bytes)`. */
    method WriteFile(path: string, doc: Document)
      modifies this
      ensures written == old(written) + [FileWrite(path, doc)]
      ensures dirs == old(dirs)
    {
      written := written + [FileWrite(path, doc)];
    }
  }
}
