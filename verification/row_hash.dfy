/**
 * The record a row's change-detection hash is computed from (`s2p_build_row_hash`). The source
 * hashes `md5(json_encode(record))`; here the encoding and digest together are one function
 * supplied by the caller, so only the shape of the record is modelled.
 */
module RowHash {

  /** The fields of the hashed array, in the source's key order. */
  datatype HashInput = HashInput(
    sheetKey: string,
    mode: string,
    template: string,
    title: string,
    content: string,
    category: string,
    tags: string,
    featuredImage: string,
    status: string,
    postType: string
  )

  /** The template takes part only in developer mode; in any other mode it is recorded as `""`. */
  function HashInputOf(
    mode: string, template: string, title: string, content: string, category: string,
    tags: string, image: string, status: string, postType: string, sheetKey: string
  ): HashInput
  {
    HashInput(sheetKey, mode, if mode == "developer" then template else "", title, content,
              category, tags, image, status, postType)
  }

  /** `s2p_build_row_hash`, with `digest` standing for `md5(json_encode(...))`. */
  function BuildRowHash(
    mode: string, template: string, title: string, content: string, category: string,
    tags: string, image: string, status: string, postType: string, sheetKey: string,
    digest: HashInput -> string
  ): string
  {
    digest(HashInputOf(mode, template, title, content, category, tags, image, status, postType, sheetKey))
  }

  /** Outside developer mode, editing the template never changes a row's hash. */
  lemma TemplateIgnoredOutsideDeveloper(
    mode: string, t1: string, t2: string, title: string, content: string, category: string,
    tags: string, image: string, status: string, postType: string, sheetKey: string,
    digest: HashInput -> string
  )
    requires mode != "developer"
    ensures BuildRowHash(mode, t1, title, content, category, tags, image, status, postType, sheetKey, digest)
         == BuildRowHash(mode, t2, title, content, category, tags, image, status, postType, sheetKey, digest)
  {
  }

  /**
   * Two rows give the same record exactly when every field agrees, the template counting only
   * when the mode is `developer`; a change to any other field reaches the digest's input.
   */
  lemma HashInputSeparates(
    mode: string, template: string, title: string, content: string, category: string,
    tags: string, image: string, status: string, postType: string, sheetKey: string,
    mode': string, template': string, title': string, content': string, category': string,
    tags': string, image': string, status': string, postType': string, sheetKey': string
  )
    ensures
      (HashInputOf(mode, template, title, content, category, tags, image, status, postType, sheetKey)
         == HashInputOf(mode', template', title', content', category', tags', image', status', postType', sheetKey'))
      <==>
      (&& mode == mode' && title == title' && content == content' && category == category'
       && tags == tags' && image == image' && status == status' && postType == postType'
       && sheetKey == sheetKey'
       && (mode == "developer" ==> template == template'))
  {
  }
}
