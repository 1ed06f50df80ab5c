/** `linked_entry`: a node of the database tree, with the fields the modelled operations use. */
module Entries {
  import opened BufferedFile
  import opened Records

  class Entry {
    /** `entry_id_str`: the id as text. */
    var id: string
    var fileName: string
    var hasParent: bool
    var parent: Entry?
    var child: seq<Entry>
    var depth: nat

    /** The fields that are only carried along: what the file holds of the entry, parent id and number of
        children apart. */
    var body: Record

    /** `link_prev`, `link_next`: the list a recursive operation threads through a branch. */
    var linkPrev: Entry?
    var linkNext: Entry?

    /** `next_same_fn`: the next entry with the same file name. */
    var nextSame: Entry?

    constructor (id: string, fileName: string, body: Record)
      ensures this.id == id && this.fileName == fileName && this.body == body
      ensures !hasParent && parent == null && child == [] && depth == 0
      ensures linkPrev == null && linkNext == null && nextSame == null
    {
      this.id, this.fileName, this.body := id, fileName, body;
      hasParent, parent, child, depth := false, null, [], 0;
      linkPrev, linkNext, nextSame := null, null, null;
    }
  }
}
