/** Records shared by the whitelist registry and the decision loop. */
module Types {

  datatype Option<+T> = None | Some(value: T)

  /**
   * One whitelist rule as decoded from the whitelist document. Every field
   * is optional in the document and decodes to "" when absent; the `kind`
   * field is stored under the JSON name "resource".
   */
  datatype WhiteList = WhiteList(
    group: string,
    version: string,
    kind: string,
    name: string,
    namespace: string)
}
