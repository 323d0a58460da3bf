# Raw pass-through values and the poem response encoder

This project models two small pure components of an async-graphql fork. Both sit where the engine's value model meets the transport.

- **`RawType<T>`** (`src/types/external/raw.rs`, module `RawValue`) is a pass-through adapter. In the source it stores one string and a phantom marker for `T`; the model keeps the string, and `T` enters only through its type-level descriptor. At the type level it is invisible: its type names and its schema registration are `T`'s. At the value level it is opaque: a `Value::Raw(s)` input is accepted verbatim, and the output is always `Value::Raw(s)`.
- **`GraphQLBatchResponse::into_response`** (`integrations/poem/src/response.rs`, module `PoemResponse`) turns a batch response into an HTTP response:
  - The body is the raw bytes on the fast path and the JSON encoding of the batch otherwise.
  - A `cache-control` header is added only when the batch succeeded.
  - The resolver-supplied headers are appended through a convert-or-drop filter.
  - `GraphQLResponse::into_response` encodes a single response as the batch built from it.

The wrapped type `T`'s trait methods are passed in as a `SchemaType` descriptor: its qualified name and its registration routine. The type registry is an opaque state, `Reg -> (Reg, string)`. The HTTP header grammar is a `HeaderGrammar` of two abstract validity predicates, and the JSON encoding is the symbolic body `JsonBody(batch)`. `common.dfy` holds `Option`, `Result` and `byte`. `filter_map.dfy` models Rust's `Iterator::filter_map` on sequences.

### Points where the code's behaviour is easy to misread

- **The non-raw branch of `parse`** (raw.rs:41). The generic call `InputType::parse(Some(value))` reads as if it meant `T::parse`. Its `Self`, however, is fixed to `RawType<T>` by the surrounding `Ok(..?)`. So the call re-enters `RawType<T>::parse` with the same non-raw value, and that recursion never returns.
  - `Parse` models this branch as `Diverges`.
  - `ParseUnfolded` is the recursion unfolded literally, with a bounded number of stack frames. `ParseUnfoldingAgrees` proves that no stack budget lets the branch return.
  - An absent input becomes `Value::Null` through `unwrap_or_default` and takes the same branch.
- **Resolver-supplied headers** (response.rs:51-56). `HeaderMap::extend` over `(HeaderName, HeaderValue)` pairs appends, so repeated names accumulate instead of replacing one another. The model appends.
- **Header-name case** (response.rs:53). `HeaderName::from_str` lower-cases names. So an override named `Cache-Control` becomes a `cache-control` header even on a failed batch (`MixedCaseCacheOverride`).
- **Empty cache values** (response.rs:44-45). The encoder never checks whether the cache value is empty. It only requires that `cache_control().value()` is `Some(v)` and that `v` converts to a header value.

## Model

| member | source | states |
|---|---|---|
| RawValue.RawRoundTrip | src/types/external/raw.rs:14-16 | `new(s)` stores `s` unchanged. `to_value` of it is `Raw(s)`, and `parse` of that gives back the same adapter. |
| RawValue.UnwrapOrDefault | src/types/external/raw.rs:39 | A present input is used as given. An absent input becomes the default value, which is never `Raw`. |
| RawValue.Parse | src/types/external/raw.rs:38-43 | `parse` yields an adapter iff the input is present and `Raw`, and the adapter holds exactly that text. It never reports an error. Every other input diverges. |
| RawValue.ParseUnfoldingAgrees | src/types/external/raw.rs:41 | For every stack depth, the self-recursive call unfolded literally gives `Parse`'s result, or diverges when no frame is left. So the non-raw branch never returns. |
| RawValue.AbsentInputNeverParses | src/types/external/raw.rs:39-41 | A `None` input is replaced by the default value and never yields an adapter, at any stack depth. |
| RawValue.ParseAcceptsEveryRaw | src/types/external/raw.rs:40 | Every raw text is accepted as the adapter holding it, with no check against `T`. |
| RawValue.ParseInvertsToValue | src/types/external/raw.rs:38-47 | `parse(Some(to_value(x))) == Ok(x)` for every adapter `x`. |
| RawValue.ToValue | src/types/external/raw.rs:45-47 | `to_value` is always the `Raw` variant, and it holds exactly the stored text. |
| RawValue.AsRawValue | src/types/external/raw.rs:49-51 | `as_raw_value` always returns the adapter itself. |
| RawValue.InputCreateTypeInfo | src/types/external/raw.rs:33-36 | Input registration changes the registry exactly as `T`'s registration does. It returns `T`'s qualified name, not the name `T`'s registration returned. |
| RawValue.OutputCreateTypeInfo | src/types/external/raw.rs:63-66 | Output registration changes the registry exactly as `T`'s registration does. It returns `T`'s qualified name. |
| RawValue.TypeTransparency | src/types/external/raw.rs:25-31 | The input `type_name` and `qualified_type_name` both equal `T`'s qualified name, and so do the output ones (lines 55-61). Both registrations have exactly `T`'s registry effect. |
| RawValue.Resolve | src/types/external/raw.rs:68-74 | `resolve` succeeds for every context and field, with the value `to_value` gives: `Raw` of the stored text. |
| RawValue.ResolveThenParse | src/types/external/raw.rs:73 | What `resolve` emits parses back to the same adapter. |
| PoemResponse.ConvertOverride | integrations/poem/src/response.rs:53-55 | An override converts iff both its name and its value are valid. The result is the ASCII lower-casing of the name, paired with the value as given. |
| PoemResponse.MixedCaseCacheOverride | integrations/poem/src/response.rs:43-56 | A failed batch with a valid `Cache-Control: v` override still carries `cache-control: v`, because name conversion lower-cases it. |
| PoemResponse.KeepConvertible | integrations/poem/src/response.rs:52-56 | The filter never yields more headers than it was given. A header is kept iff some override converts to it. |
| PoemResponse.KeepConvertibleSelects | integrations/poem/src/response.rs:52-56 | The kept headers are exactly the conversions of the convertible overrides, in their original order. Every convertible override is kept and no other. |
| FilterMaps.FilterMapSelects | integrations/poem/src/response.rs:52-56 | `filter_map` keeps exactly the elements its closure maps to `Some`, mapped, in their original order. |
| PoemResponse.KeptCount | integrations/poem/src/response.rs:52-55 | The number of kept headers equals the number of convertible overrides. |
| PoemResponse.DropSafetyExample | integrations/poem/src/response.rs:52-56 | Given one override with an invalid name and two valid ones, exactly the two valid ones are kept, lower-cased and in order. |
| PoemResponse.Insert | integrations/poem/src/response.rs:46 | After `insert`, the name has exactly the inserted value. Headers with other names are unchanged. |
| PoemResponse.ExtendHeaders | integrations/poem/src/response.rs:51-56 | `extend` keeps the body. The earlier headers stay as a prefix. A header is present afterwards iff it was present before or some override converts to it. |
| PoemResponse.BaseResponse | integrations/poem/src/response.rs:33-41 | With raw data, the body is those bytes; otherwise it is the JSON encoding of the batch. Either way the only header is the JSON content type. |
| PoemResponse.CacheDirective | integrations/poem/src/response.rs:43-45 | There is a directive iff the batch is ok, has a cache value, and that value is a valid header value. The directive is that value. |
| PoemResponse.WithCacheControl | integrations/poem/src/response.rs:43-49 | The step keeps the body and all headers other than `cache-control`. `cache-control: v` is present afterwards iff `v` is the directive, or there is no directive and it was present before. |
| PoemResponse.IntoResponse | integrations/poem/src/response.rs:30-58 | The encoder is total when raw data is claimed only if present. The body follows the raw/JSON choice, and the JSON content type comes first. `cache-control: v` is present iff the batch is ok with valid cache value `v`, or a kept override is `cache-control: v`. |
| PoemResponse.HeadersLayout | integrations/poem/src/response.rs:36-56 | The headers are the content type, then `cache-control` if a directive applies, then the kept overrides. The extend step only appends. |
| PoemResponse.CacheControlIff | integrations/poem/src/response.rs:43-49 | If no override converts to a `cache-control` header, then `cache-control: v` is present iff the batch is ok, its cache value is `v`, and `v` is a valid header value. |
| PoemResponse.FailedBatchNotCached | integrations/poem/src/response.rs:43 | For a failed batch, any `cache-control` header in the response came from an override, never from the encoder. |
| PoemResponse.HeadersIndependentOfBody | integrations/poem/src/response.rs:33-49 | Batches that differ only in raw data get identical headers. The raw path replaces only the body. |
| PoemResponse.RawBodyPrecedence | integrations/poem/src/response.rs:33-38 | With raw data present, the body is that data byte for byte, whatever the rest of the batch holds. |
| PoemResponse.FromSingle | integrations/poem/src/response.rs:17 | The batch built from a single response reports that response's raw data, status, cache value and headers. |
| PoemResponse.IntoResponseSingle | integrations/poem/src/response.rs:15-19 | A single response gets the same body choice and the same `cache-control` rule as a batch. The rule is stated in terms of the single response. |
| PoemResponse.SingleEncodesAsBatch | integrations/poem/src/response.rs:15-19 | Encoding a single response equals encoding the batch built from it, so every batch property carries over. |

## Left out

- The non-raw branch of `parse` is modelled as divergence (`Diverges`). Delegation to `T`'s parser is not modelled because the code does not perform it: the call re-enters the same `parse`. The `Failed` outcome exists only so that the unfolding can carry an error, and it is never produced.
- `InputValueError::propagate` (raw.rs:41) is not part of this model: its message rewriting belongs to async-graphql's error type. The unfolding passes errors through unchanged.
- Registry internals are not modelled: `T`'s registration is an opaque state transformer in the `SchemaType` descriptor.
- The phantom marker `PhantomData<T>` is not modelled: it carries no data. The caller supplies the `SchemaType` descriptor that belongs to `T`.
- `async`, `ContextSelectionSet` and `Field` in `resolve` are not modelled: the logic does not use them, so they become unconstrained type parameters.
- The `String` doc comment at raw.rs:19-21 is not modelled. It describes a different type.
- JSON serialization is not modelled: the structured body is the symbolic `JsonBody(batch)`.
- poem's `Json` responder answers a serialization failure with a 500 response. That path is not modelled; the JSON encoding is taken to succeed. Its content type (`application/json; charset=utf-8`, the same as on the raw path) is modelled.
- The HTTP header grammar is not modelled: `HeaderName::from_str` and `HeaderValue::from_bytes`/`try_from` become the abstract predicates of `HeaderGrammar`. The ASCII lower-casing of names is modelled.
- Header values are modelled as text. A character stands for a byte of `as_bytes()`, or of the UTF-8 form of the cache `String`.
- The grouping of `HeaderMap` iteration by name is not modelled. The model keeps headers as one flat sequence in insertion order, which has the same contents.
- PoemResponse.Insert removes the name and appends the new pair, where `HeaderMap::insert` replaces the value in place. This cannot be observed here, because the only insert is of `cache-control` into a map that holds only `content-type` (`HeadersLayout`).
- The accessors of `async_graphql::BatchResponse` (`is_ok` over all results, merging of cache-control across results, `has_raw_data`, `http_headers`) are not part of this model. The batch is the record of the values they return.
- PoemResponse.IntoResponse requires that `hasRawData` implies raw data is present (`RawDataConsistent`). Without it the `unwrap` at response.rs:35 would panic. The model assumes it rather than modelling the panic.
- The `From` impls at response.rs:9-13 and 24-28 are plain wrappers. `SingleResponse` and `BatchResponse` stand for the wrapped values directly.
- The `println!` output at response.rs:32 and 34 is not modelled: it is incidental I/O.
- Status codes and the server lifecycle are not modelled.
