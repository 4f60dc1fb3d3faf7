/** A tiles directory as the program sees it through `opendir`/`readdir`: its path, the
    entry names in iteration order (`.` and `..` included), and whether it can be opened.
    The listing does not change while the program runs, so every re-open sees the same. */
module DirListing {

  datatype Dir = Dir(path: string, entries: seq<string>, opens: bool)

}
