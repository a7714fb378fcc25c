/** The object store behind `StorageService`: a mutable map from storage
    paths to contents. */
module Storage {
  import Base64
  import JsStrings

  type Bytes = Base64.Bytes

  class Store {
    var objects: map<string, Bytes>

    constructor ()
      ensures objects == map[]
    {
      objects := map[];
    }

    /** `exists(path)` */
    predicate Exists(path: string)
      reads this
    {
      path in objects
    }

    /** `put(path, content)`: creates or overwrites the object at `path`. */
    method Put(path: string, content: Bytes)
      modifies this
      ensures objects == old(objects)[path := content]
    {
      objects := objects[path := content];
    }

    /** `delete(path)`: removes the object; a missing path is not an error. */
    method Delete(path: string)
      modifies this
      ensures objects == old(objects) - {path}
    {
      objects := objects - {path};
    }

    /** `delete` of a folder: removes every object whose path starts with
        `prefix`. */
    method DeletePrefix(prefix: string)
      modifies this
      ensures objects == map p | p in old(objects) && !JsStrings.StartsWith(p, prefix) :: old(objects)[p]
    {
      objects := map p | p in objects && !JsStrings.StartsWith(p, prefix) :: objects[p];
    }

    /** Removes every object: `fs.rm(dir, { recursive: true, force: true })`
        on a directory this store stands for. */
    method Clear()
      modifies this
      ensures objects == map[]
    {
      objects := map[];
    }
  }
}
