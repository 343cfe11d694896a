/** The create-or-version upload of one schema (create_or_update_schema of
    load_schemas.py). The registry is reached only through the status code it
    gives each request; what it does with a request is not modelled. */
module RegistryUpload {
  import opened Json

  const REGISTRY_URL: string := "http://localhost:8099/apis/registry/v2"
  const AVRO_CONTENT_TYPE: string := "application/vnd.apache.avro+json"

  /** A POST to the registry. The body is the enriched schema; its
      pretty-printed text is not modelled. */
  datatype Request = Post(url: string, headers: map<string, string>, body: Value)

  function ArtifactsUrl(groupId: string): string {
    REGISTRY_URL + "/groups/" + groupId + "/artifacts"
  }

  function VersionsUrl(groupId: string, artifactId: string): string {
    ArtifactsUrl(groupId) + "/" + artifactId + "/versions"
  }

  function UploadHeaders(artifactId: string): map<string, string> {
    map["Content-Type" := AVRO_CONTENT_TYPE, "X-Registry-ArtifactId" := artifactId]
  }

  /** The first request: create the artifact in the group. */
  function CreateRequest(groupId: string, artifactId: string, body: Value): Request {
    Post(ArtifactsUrl(groupId), UploadHeaders(artifactId), body)
  }

  /** The fallback request: append a version to the existing artifact. */
  function VersionRequest(groupId: string, artifactId: string, body: Value): Request {
    Post(VersionsUrl(groupId, artifactId), UploadHeaders(artifactId), body)
  }

  const CONFLICT: int := 409

  predicate IsSuccess(status: int) {
    status == 200 || status == 201
  }

  /** raise_for_status raises for client and server errors only. */
  function RaisesForStatus(status: int): (b: bool)
    ensures b <==> status / 100 == 4 || status / 100 == 5
    ensures b ==> !IsSuccess(status)
  {
    400 <= status < 600
  }

  /** What the upload reports. */
  datatype Outcome =
    | Created
    | VersionAppended
    | CreateFailed(status: int)   // the create request got neither success nor conflict
    | VersionFailed(status: int)  // the create request conflicted and the version request failed
  {
    predicate Succeeded() {
      Created? || VersionAppended?
    }
  }

  /** The requests issued, in order, and the outcome reported. */
  datatype Upload = Upload(requests: seq<Request>, outcome: Outcome) {
    /** Whether create_or_update_schema ends by raising: only a failure whose
        status is a 4xx or 5xx does; any other failure is reported and returns. */
    function Raised(): (b: bool)
      ensures b <==> (outcome.CreateFailed? || outcome.VersionFailed?) && 400 <= outcome.status < 600
    {
      !outcome.Succeeded() && RaisesForStatus(outcome.status)
    }
  }

  /** create_or_update_schema, given the status `reply` the registry gives each
      request. */
  function CreateOrUpdate(groupId: string, artifactId: string, body: Value, reply: Request -> int): (u: Upload)
    ensures 1 <= |u.requests| <= 2
    ensures u.requests[0] == CreateRequest(groupId, artifactId, body)
    ensures |u.requests| == 2 <==> reply(CreateRequest(groupId, artifactId, body)) == CONFLICT
    ensures |u.requests| == 2 ==> u.requests[1] == VersionRequest(groupId, artifactId, body)
    ensures u.outcome == Created <==> IsSuccess(reply(CreateRequest(groupId, artifactId, body)))
    ensures u.outcome == VersionAppended <==>
              reply(CreateRequest(groupId, artifactId, body)) == CONFLICT &&
              IsSuccess(reply(VersionRequest(groupId, artifactId, body)))
    ensures !u.outcome.Succeeded() ==> u.outcome.status == reply(u.requests[|u.requests| - 1])
    ensures !u.outcome.Succeeded() ==> (u.outcome.VersionFailed? <==> |u.requests| == 2)
  {
    var create := CreateRequest(groupId, artifactId, body);
    var first := reply(create);
    if IsSuccess(first) then
      Upload([create], Created)
    else if first == CONFLICT then
      var version := VersionRequest(groupId, artifactId, body);
      var second := reply(version);
      Upload([create, version], if IsSuccess(second) then VersionAppended else VersionFailed(second))
    else
      Upload([create], CreateFailed(first))
  }

  /** The outcome is read off the reply to the last request issued: success
      exactly when that reply is 200 or 201, and a failure carries that reply. */
  lemma OutcomeFollowsLastReply(groupId: string, artifactId: string, body: Value, reply: Request -> int)
    ensures var u := CreateOrUpdate(groupId, artifactId, body, reply);
            var last := reply(u.requests[|u.requests| - 1]);
            && (u.outcome.Succeeded() <==> IsSuccess(last))
            && (!u.outcome.Succeeded() ==> u.outcome.status == last)
            && (u.Raised() <==> RaisesForStatus(last))
  {
  }

  /** Any first status other than 200, 201 and 409 is a failure of the create
      request, and nothing more is sent. */
  lemma OtherFirstStatusFails(groupId: string, artifactId: string, body: Value, reply: Request -> int)
    requires !IsSuccess(reply(CreateRequest(groupId, artifactId, body)))
    requires reply(CreateRequest(groupId, artifactId, body)) != CONFLICT
    ensures CreateOrUpdate(groupId, artifactId, body, reply) ==
              Upload([CreateRequest(groupId, artifactId, body)], CreateFailed(reply(CreateRequest(groupId, artifactId, body))))
  {
  }
}
