/**
 * The shapes of the two export formats (src/types.ts). A field JavaScript
 * may find `undefined` is an Option (or, for the self-referential folder
 * list, FolderList); fields that only ever hold a fixed empty value in the
 * output (`event`, `variable`, `protocolProfileBehavior`) are not
 * represented.
 */
module Types {

  import opened Wrappers

  // ---------------------------------------------------------------- Hoppscotch

  /** Source authentication; `authType` is any string ('bearer', 'inherit', 'none' or other). */
  datatype HoppscotchAuth = HoppscotchAuth(authType: string, token: Option<string>)

  datatype HoppscotchHeader = HoppscotchHeader(key: string, value: string, active: bool)

  datatype FormField = FormField(key: string, value: string)

  /** The `body` payload of a request body: a string, an array of fields, or any other JSON value. */
  datatype BodyPayload = TextPayload(text: string) | FieldsPayload(fields: seq<FormField>) | OtherPayload

  datatype HoppscotchBody = HoppscotchBody(contentType: string, body: BodyPayload)

  datatype HoppscotchRequest = HoppscotchRequest(
    name: string,
    httpMethod: string,
    endpoint: string,
    headers: Option<seq<HoppscotchHeader>>,
    auth: HoppscotchAuth,
    body: Option<HoppscotchBody>,
    description: Option<string>)

  /** A folder's optional list of sub-folders. */
  datatype FolderList = NoFolders | Folders(list: seq<HoppscotchFolder>) {
    function Elements(): seq<HoppscotchFolder> {
      if Folders? then list else []
    }
  }

  datatype HoppscotchFolder = HoppscotchFolder(
    name: string,
    folders: FolderList,
    requests: Option<seq<HoppscotchRequest>>)

  datatype HoppscotchCollection = HoppscotchCollection(
    name: string,
    folders: FolderList,
    requests: Option<seq<HoppscotchRequest>>,
    auth: Option<HoppscotchAuth>)

  datatype HoppscotchEnvVariable = HoppscotchEnvVariable(key: string, value: string, secret: bool)

  datatype HoppscotchEnvironment = HoppscotchEnvironment(
    id: string,
    name: string,
    variables: seq<HoppscotchEnvVariable>)

  // ---------------------------------------------------------------- Postman

  /** The `{key, value, type}` triple used for headers, form fields and the bearer token. */
  datatype PostmanKeyValue = PostmanKeyValue(key: string, value: string, valueType: string)

  datatype PostmanAuth = BearerAuth(bearer: seq<PostmanKeyValue>) | InheritAuth | NoAuth {
    /** The `type` tag written to the document. */
    function Type(): string {
      match this
      case BearerAuth(_) => "bearer"
      case InheritAuth => "inherit"
      case NoAuth => "noauth"
    }
  }

  datatype PostmanBody = FormDataBody(formdata: seq<PostmanKeyValue>) | RawBody(raw: string) {
    /** The `mode` tag written to the document. */
    function Mode(): string {
      if FormDataBody? then "formdata" else "raw"
    }
  }

  datatype PostmanUrl = PostmanUrl(raw: string, host: seq<string>, path: seq<string>)

  datatype PostmanRequest = PostmanRequest(
    httpMethod: string,
    header: seq<PostmanKeyValue>,
    body: Option<PostmanBody>,
    url: PostmanUrl,
    auth: PostmanAuth,
    description: string)

  /** An item is a folder-like container or a single request, never both. */
  datatype PostmanItem = Container(name: string, item: seq<PostmanItem>) | Leaf(name: string, request: PostmanRequest)

  datatype PostmanInfo = PostmanInfo(name: string, postmanId: string, description: string, schema: string)

  /** `auth` is None when the document carries the empty object `{}`. */
  datatype PostmanCollection = PostmanCollection(info: PostmanInfo, item: seq<PostmanItem>, auth: Option<PostmanAuth>)

  datatype PostmanEnvValue = PostmanEnvValue(key: string, value: string, enabled: bool, valueType: string, secret: bool)

  datatype PostmanEnvironment = PostmanEnvironment(
    id: string,
    name: string,
    values: seq<PostmanEnvValue>,
    variableScope: string,
    exportedAt: string,
    exportedUsing: string)
}
