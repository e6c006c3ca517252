/** The listing records returned by the remote-jobs API, and the shape of its HTTP
    response as the job service reads it. */
module Listing {

  datatype Option<+T> = None | Some(value: T)

  /** The outcome of an operation that can throw: `Failure` stands for the rejected promise. */
  datatype Result<+T> = Success(value: T) | Failure

  /** One job posting. Optional JSON fields are `Option`s; `category` and `salary` may
      also be present but empty, which the board treats like absence. */
  datatype Job = Job(
    id: int,
    title: string,
    companyName: string,
    companyLogo: Option<string>,
    category: Option<string>,
    salary: Option<string>,
    publicationDate: string,
    description: string,
    url: string)

  /** The JSON body `{ jobs: [...] }`; the `jobs` field may be missing. */
  datatype ResponseData = ResponseData(jobs: Option<seq<Job>>)

  /** What the HTTP GET yields: a response whose `data` may be missing, or a transport
      or upstream failure (the axios promise rejects). */
  datatype HttpResponse = Received(data: Option<ResponseData>) | Failed

  /** JavaScript truthiness of an optional string field: the falsy values a string
      field can take are `undefined`/`null` (here `None`) and the empty string. */
  predicate Truthy(s: Option<string>): (r: bool)
    ensures r <==> s != None && s != Some("")
  {
    s.Some? && s.value != ""
  }
}
