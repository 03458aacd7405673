/** The two HTTP requests of bot.py as values: the form `post_status` sends to
    `/api/v1/statuses` (bot.py:14-26) and the rule by which `upload_media` turns the
    response of `/api/v2/media` into a media id (bot.py:28-39). */
module Mastodon {
  import opened Wrappers

  /** A form field: a plain string, or a list sent as a repeated field. */
  datatype FormValue = Str(s: string) | Items(items: seq<string>)

  type Form = map<string, FormValue>

  /** The body of the media endpoint's answer, as `r.json()` sees it: a JSON object
      with its `id` member (`None` when it has none), some other JSON value, or text
      that is not JSON at all. */
  datatype UploadBody = JsonObject(id: Option<string>) | OtherJson | NotJson

  /** What the media endpoint answered: the HTTP status code and the body. */
  datatype UploadResponse = UploadResponse(status: int, body: UploadBody)

  /** Why `upload_media` raises on a 200 answer: `r.json()` cannot decode the body,
      or the decoded value has no `get` method. */
  datatype UploadError = JsonDecodeError | NoGetMethod

  /** Python truthiness of a media id: present and not the empty string. */
  predicate Truthy(mediaId: Option<string>) {
    mediaId.Some? && mediaId.value != ""
  }

  /** The `payload` dictionary of `post_status(text, media_id)`. */
  function StatusForm(text: string, mediaId: Option<string>): (f: Form)
    ensures f.Keys == (if Truthy(mediaId) then {"status", "visibility", "media_ids[]"} else {"status", "visibility"})
    ensures f["status"] == Str(text) && f["visibility"] == Str("public")
    ensures Truthy(mediaId) ==> f["media_ids[]"] == Items([mediaId.value])
  {
    var base := map["status" := Str(text), "visibility" := Str("public")];
    if Truthy(mediaId) then base["media_ids[]" := Items([mediaId.value])] else base
  }

  /** The value `upload_media` returns for the endpoint's answer, or the exception it
      raises. The body is read only on a 200 answer. */
  function MediaId(resp: UploadResponse): (r: Result<Option<string>, UploadError>)
    ensures resp.status != 200 ==> r == Success(None)
    ensures resp.status == 200 && resp.body.JsonObject? ==> r == Success(resp.body.id)
    ensures r.Success? && r.value.Some? ==> resp.status == 200 && resp.body == JsonObject(r.value)
    ensures r.Failure? <==> resp.status == 200 && !resp.body.JsonObject?
    ensures r == Failure(JsonDecodeError) <==> resp.status == 200 && resp.body.NotJson?
  {
    if resp.status != 200 then Success(None)
    else
      match resp.body
      case JsonObject(id) => Success(id)
      case OtherJson => Failure(NoGetMethod)
      case NotJson => Failure(JsonDecodeError)
  }
}
