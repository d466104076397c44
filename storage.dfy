/** The filesystem directory that holds encrypted vault files, one per vault name. */
module Storage {
  import opened Crypto

  class Disk<T> {
    /** The vault files present, keyed by vault name (the file is `<name>.psdb`). */
    var files: map<string, Blob<T>>
    /** Whether writes and removals succeed; false models any I/O failure of the directory. */
    var writable: bool

    constructor (files: map<string, Blob<T>>, writable: bool)
      ensures this.files == files && this.writable == writable
    {
      this.files := files;
      this.writable := writable;
    }
  }
}
