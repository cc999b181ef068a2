/** The API Gateway request as the redirect function sees it. Building it from
    the raw Lambda event is not part of this model. */
module RequestModels {
  import opened Wrappers

  /** `queryStringParameters`: names and values in the dict's insertion order. */
  type QueryParams = seq<(string, string)>

  /** The host the request was addressed to, its path, and its query
      parameters (`None` when the request had none). */
  datatype ApiGatewayRequest = ApiGatewayRequest(domain: string, path: string, queryParams: Option<QueryParams>)
}
