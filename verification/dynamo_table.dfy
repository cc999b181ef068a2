/** The DynamoDB table the redirect function reads, reduced to what the
    function observes: items are attribute maps, a query is a key condition on
    the partition key `pk` and optionally the sort key `sk`, and the table
    answers a query with the matching items in its own iteration order, or
    raises. The client itself is not part of this model: the table is a
    parameter of every operation. */
module DynamoTable {
  import opened Wrappers

  /** A DynamoDB item: attribute name to (string) attribute value. */
  type Item = map<string, string>

  /** `Key("pk").eq(pk)` or `Key("pk").eq(pk) & Key("sk").eq(sk)`. */
  datatype KeyCondition =
    | PartitionKeyEq(pk: string)
    | PartitionAndSortKeyEq(pk: string, sk: string)

  /** The exceptions that can escape the Lambda handler. */
  datatype Error =
    | StoreError(reason: string)     // anything the DynamoDB client raises
    | KeyError(attribute: string)    // an item lacks an attribute the code indexes
    | RuntimeError(message: string)  // raised by the controller itself

  /** `table.query(KeyConditionExpression=...)`: the response's `Items`, whose
      `Count` is their number, or the client's exception. */
  type Table = KeyCondition -> Result<seq<Item>, Error>

  /** `item[name]`: the attribute's value, or `KeyError(name)` when absent. */
  function Attribute(item: Item, name: string): (r: Result<string, Error>)
    ensures r.Success? <==> name in item
    ensures r.Success? ==> r.value == item[name]
    ensures r.Failure? ==> r.error == KeyError(name)
  {
    if name in item then Success(item[name]) else Failure(KeyError(name))
  }
}
