# User service core, modelled in Dafny

A functional model of the core of a small reactive user-management service. The model covers:

- the field validators: the chainable `ValidatorService` and the `@Required`, `@Min`, `@Max`, `@IsEnum` and `@IsDate` annotation validators;
- the constraint table of the update request, and the constraints of the create request;
- the exception handler that turns every error into an HTTP status and a `{status, data: null}` envelope;
- the enum ↔ wire-value converters and the command, entity and response converters;
- the persistence service: insert, lookup by id, paging and delete, over a table modelled as a sequence of rows;
- `CustomPage.map`;
- the `UserComponent` flows: create, the partial-update merge, get, list and delete;
- the `BaseController` success envelopes, and the endpoints composed from all of the above.

Everything the code leaves to other code is a parameter:

- the status catalogue's code and description strings (`Catalog`);
- the three enumerations, as tables of their `getValue()` results (`UserEnums`);
- the date parser (`DateParser`);
- the id the database generates for a new row.

Every Java `null` is an `Option`. A validator that throws is an `Err`. A Reactor pipeline is straight-line code that returns a `Result`.

Bean validation may visit a request's annotations in any order. `Constraints.FirstViolation` runs them in an arbitrary arrangement `run` of the table and stops at the first that throws. Every property about validation holds for all arrangements.

The enums are not part of this model, so an enum constant is its index in the enumeration's table of values. `find` returns the first constant with the given value. Its inverse property, `find(getValue(e)) == e`, is proved from the values being distinct rather than assumed.

## Model

| member | source | states |
|---|---|---|
| ValidatorService.Required | src/main/java/com/phoosop/reactive/service/ValidatorService.java:70-77 | rejects with the given status exactly when the value is null or a blank string (Java whitespace only); any other value passes |
| ValidatorService.Min | src/main/java/com/phoosop/reactive/service/ValidatorService.java:54-68 | rejects exactly an `Integer` or `Long` strictly below the bound, with the given status; null and non-numbers pass |
| ValidatorService.Max | src/main/java/com/phoosop/reactive/service/ValidatorService.java:38-52 | rejects exactly an `Integer` or `Long` strictly above the bound, with the given status; null and non-numbers pass |
| ValidatorService.IsEnum | src/main/java/com/phoosop/reactive/service/ValidatorService.java:30-36 | passes exactly null and the values among the constants' `getValue()` results |
| ValidatorService.IsDate | src/main/java/com/phoosop/reactive/service/ValidatorService.java:21-28 | passes exactly a null date or one the parser accepts under the pattern |
| ValidatorService.ChainFailFast | src/main/java/com/phoosop/reactive/service/ValidatorService.java:21-77 | a chain of checks passes iff every check passes; once one throws, its status is the chain's result |
| ValidatorService.BoundsInclusive | src/main/java/com/phoosop/reactive/service/ValidatorService.java:38-68 | a value equal to the bound passes `min` and `max`; `min(lo)` then `max(hi)` passes exactly `lo..hi` |
| ValidatorService.NullOnlyFailsRequired | src/main/java/com/phoosop/reactive/service/ValidatorService.java:21-77 | null passes `isDate`, `isEnum`, `min` and `max`, and always fails `required` |
| ValidatorService.NonNumbersIgnoreBounds | src/main/java/com/phoosop/reactive/service/ValidatorService.java:39-50 | values that are neither `Integer` nor `Long` always pass `min` and `max` |
| RequiredAnnotation.Initialize | src/main/java/com/phoosop/reactive/annotations/RequiredAnnotation.java:19-21 | the configured status is the annotation's, by default `BAD_REQUEST` |
| RequiredAnnotation.IsValid | src/main/java/com/phoosop/reactive/annotations/RequiredAnnotation.java:24-31 | never `false`; `true` exactly for a non-null, non-blank value; otherwise `InvalidRequestException` with the configured status |
| RequiredAnnotation.AgreesWithService | src/main/java/com/phoosop/reactive/annotations/RequiredAnnotation.java:24-31 | the annotation and the service's `required` accept the same values and fail with the same status |
| RequiredAnnotation.DefaultStatusIsBadRequest | src/main/java/com/phoosop/reactive/annotations/RequiredAnnotation.java:19-30 | left at its default, the annotation rejects null and a blank string with `InvalidRequestException(BAD_REQUEST)` |
| MinAnnotation.Initialize | src/main/java/com/phoosop/reactive/annotations/MinAnnotation.java:19-22 | the bound and status come from the annotation; the status defaults to `BAD_REQUEST` |
| MinAnnotation.IsValid | src/main/java/com/phoosop/reactive/annotations/MinAnnotation.java:25-39 | never `false`; throws the configured status exactly for an `Integer` or `Long` below the bound |
| MinAnnotation.AgreesWithService | src/main/java/com/phoosop/reactive/annotations/MinAnnotation.java:25-39 | agrees with the service's `min` on every value |
| MinAnnotation.DefaultStatusIsBadRequest | src/main/java/com/phoosop/reactive/annotations/MinAnnotation.java:19-39 | left at its default, the annotation rejects an `Integer` or `Long` one below the bound with `BAD_REQUEST` and accepts the bound |
| MaxAnnotation.Initialize | src/main/java/com/phoosop/reactive/annotations/MaxAnnotation.java:18-21 | the annotation's `value` is kept in the field named `min`; the status defaults to `BAD_REQUEST` |
| MaxAnnotation.IsValid | src/main/java/com/phoosop/reactive/annotations/MaxAnnotation.java:24-38 | never `false`; throws the configured status exactly for an `Integer` or `Long` above the bound |
| MaxAnnotation.AgreesWithService | src/main/java/com/phoosop/reactive/annotations/MaxAnnotation.java:24-38 | agrees with the service's `max` on every value |
| MaxAnnotation.BoundIsUpper | src/main/java/com/phoosop/reactive/annotations/MaxAnnotation.java:21-33 | despite its name the stored bound is an upper bound: the bound passes, one above it throws |
| MaxAnnotation.DefaultStatusIsBadRequest | src/main/java/com/phoosop/reactive/annotations/MaxAnnotation.java:18-38 | left at its default, the annotation rejects an `Integer` or `Long` one above the bound with `BAD_REQUEST` |
| IsEnumAnnotation.Initialize | src/main/java/com/phoosop/reactive/annotations/IsEnumAnnotation.java:24-28 | the allowed set is exactly the `getValue()` results of the configured enum's constants |
| IsEnumAnnotation.IsValid | src/main/java/com/phoosop/reactive/annotations/IsEnumAnnotation.java:31-36 | never `false`; `true` exactly for null or an allowed value; otherwise the configured status |
| IsEnumAnnotation.AgreesWithService | src/main/java/com/phoosop/reactive/annotations/IsEnumAnnotation.java:24-36 | agrees with the service's `isEnum` on every value |
| IsEnumAnnotation.IntegerIsNotLong | src/main/java/com/phoosop/reactive/annotations/IsEnumAnnotation.java:32-33 | membership is Java `equals`: an allowed `Integer` passes, the `Long` with the same number throws |
| IsEnumAnnotation.DefaultStatusIsBadRequest | src/main/java/com/phoosop/reactive/annotations/IsEnumAnnotation.java:24-36 | left at its default, the annotation rejects a non-null value outside the enum with `BAD_REQUEST` |
| IsDateAnnotation.Initialize | src/main/java/com/phoosop/reactive/annotations/IsDateAnnotation.java:21-24 | format and status are the annotation's |
| IsDateAnnotation.IsValid | src/main/java/com/phoosop/reactive/annotations/IsDateAnnotation.java:27-35 | never `false`; `true` exactly for null or a date that parses under the format |
| IsDateAnnotation.AgreesWithService | src/main/java/com/phoosop/reactive/annotations/IsDateAnnotation.java:27-35 | agrees with the service's `isDate` |
| Constraints.Apply | src/main/java/com/phoosop/reactive/annotations/RequiredAnnotation.java:24-31 | running any annotation never yields `false`, and every failure is an `InvalidRequestException` |
| Constraints.FirstViolation | src/main/java/com/phoosop/reactive/annotations/RequiredAnnotation.java:25-28 | validation stops at the first annotation that throws: nothing is thrown iff every annotation accepts, and what is thrown comes from an annotation of the run |
| Constraints.AnyOrder | src/main/java/com/phoosop/reactive/model/request/UpdateUserRequest.java:28-49 | in every arrangement of a table, validation passes iff the table has no violation; the reported status is one of the violations; a single violation is always the one reported |
| UserFieldRules.TypeCheck | src/main/java/com/phoosop/reactive/model/request/UpdateUserRequest.java:34-35 | `type` is rejected with `TYPE_IS_INVALID` exactly when present and not a `UserType` value |
| UserFieldRules.StatusCheck | src/main/java/com/phoosop/reactive/model/request/UpdateUserRequest.java:37-38 | `status` is rejected with `STATUS_IS_INVALID` exactly when present and not a `UserStatus` value |
| UserFieldRules.DateOfBirthCheck | src/main/java/com/phoosop/reactive/model/request/UpdateUserRequest.java:40-41 | `date_of_birth` is rejected with `DATE_OF_BIRTH_IS_INVALID` exactly when present and not parsing under the configured format |
| UserFieldRules.AgeMinCheck | src/main/java/com/phoosop/reactive/model/request/UpdateUserRequest.java:43 | `age` below 18 is rejected with `AGE_IS_INVALID` |
| UserFieldRules.AgeMaxCheck | src/main/java/com/phoosop/reactive/model/request/UpdateUserRequest.java:44 | `age` above 54 is rejected with `AGE_IS_INVALID` |
| UserFieldRules.TypedChecks | src/main/java/com/phoosop/reactive/model/request/UpdateUserRequest.java:34-45 | the violated statuses of the typed annotations are exactly the invalid fields' statuses |
| UpdateUserRequest.Validate | src/main/java/com/phoosop/reactive/model/request/UpdateUserRequest.java:28-49 | an update passes iff type and status are members, the date parses and the age is in 18..54 (each when present); a failure carries one of the violated statuses |
| UpdateUserRequest.AgeOutOfRange | src/main/java/com/phoosop/reactive/model/request/UpdateUserRequest.java:43-45 | an out-of-range age with otherwise valid fields is always reported as `AGE_IS_INVALID` |
| UpdateUserRequest.SingleFieldInvalid | src/main/java/com/phoosop/reactive/model/request/UpdateUserRequest.java:34-45 | whatever the order, a request with one violation is rejected with that violation's status |
| UpdateUserRequest.AgeExamples | src/test/java/com/phoosop/reactive/controller/UserControllerTest.java:932-999 | ages 14 and 99 give `AGE_IS_INVALID`; 18 and 54 pass |
| UpdateUserRequest.UnconstrainedFieldsPass | src/main/java/com/phoosop/reactive/model/request/UpdateUserRequest.java:28-32 | card id, names and mobile fields carry no constraint: a request without typed fields always passes |
| CreateUserRequest.RequiredCheck | src/test/java/com/phoosop/reactive/controller/UserControllerTest.java:177-656 | a required field is violated exactly when absent or blank |
| CreateUserRequest.Table | src/test/java/com/phoosop/reactive/controller/UserControllerTest.java:177-656 | the create request's violations are the missing fields' `*_IS_REQUIRED` statuses plus the typed field violations |
| CreateUserRequest.Validate | src/test/java/com/phoosop/reactive/controller/UserControllerTest.java:177-656 | a create request passes iff nothing is missing and nothing is invalid; a failure carries one of the violations |
| CreateUserRequest.SingleProblem | src/test/java/com/phoosop/reactive/controller/UserControllerTest.java:177-656 | a request with one problem is rejected with that problem's status, in any order |
| ErrorHandler.RenderErrorResponse | src/main/java/com/phoosop/reactive/exception/CustomErrorWebExceptionHandler.java:50-114 | every error reply has `data = null`, the HTTP status the error's classification gives (one of 400, 404, 405, 500), and the classified catalogue status |
| ErrorHandler.BadRequestExactly | src/main/java/com/phoosop/reactive/exception/CustomErrorWebExceptionHandler.java:58-75 | 400 is chosen exactly for an `InvalidRequestException`, bare or as the cause of a `ValidationException` |
| ErrorHandler.StatusByKind | src/main/java/com/phoosop/reactive/exception/CustomErrorWebExceptionHandler.java:50-114 | 404 exactly for `NotFoundException`, 405 exactly for `MethodNotAllowedException`, 500 for everything else that is not a client error |
| ErrorHandler.CarriedStatusWins | src/main/java/com/phoosop/reactive/exception/CustomErrorWebExceptionHandler.java:52-82 | an error that carries a status, directly or through the unwrapped cause, is answered with that status |
| ErrorHandler.FixedStatuses | src/main/java/com/phoosop/reactive/exception/CustomErrorWebExceptionHandler.java:84-114 | `METHOD_NOT_ALLOWED`; `NO_MATCHING_HANDLER` for that reason, else `JSON_DECODING_ERROR` for a decoding cause, else `INTERNAL_SERVER_ERROR`; any other error gives `INTERNAL_SERVER_ERROR` |
| ErrorHandler.WrongCauseFallsThrough | src/main/java/com/phoosop/reactive/exception/CustomErrorWebExceptionHandler.java:70-82 | a validation or conversion wrapper with any other cause gets the generic 500 |
| Enums.Find | src/main/java/com/phoosop/reactive/converter/CreateUserRequestToUserCommandConverter.java:22-35 | `find` yields a constant whose value is the one asked for, and nothing exactly when no constant has it |
| Enums.FindGetValue | src/main/java/com/phoosop/reactive/converter/UserCommandToUserEntityConverter.java:16-26 | with distinct values, `find(getValue(e))` is `e` |
| EnumConversions.IntToUserStatus | src/main/java/com/phoosop/reactive/converter/CreateUserRequestToUserCommandConverter.java:22-25 | the constant with that value, or `ServiceException(FAILED_TO_CONVERT_VALUE_TO_ENUM)` exactly when none has it |
| EnumConversions.StringToUserType | src/main/java/com/phoosop/reactive/converter/CreateUserRequestToUserCommandConverter.java:27-30 | the same for `UserType` |
| EnumConversions.IntToUserLevel | src/main/java/com/phoosop/reactive/converter/CreateUserRequestToUserCommandConverter.java:32-35 | the same for `UserLevel` |
| EnumConversions.UserStatusToInt | src/main/java/com/phoosop/reactive/converter/UserCommandToUserEntityConverter.java:16-18 | the projection cannot fail and the status lookup inverts it |
| EnumConversions.UserTypeToString | src/main/java/com/phoosop/reactive/converter/UserCommandToUserEntityConverter.java:20-22 | the projection cannot fail and the type lookup inverts it |
| EnumConversions.UserLevelToInt | src/main/java/com/phoosop/reactive/converter/UserCommandToUserEntityConverter.java:24-26 | the projection cannot fail and the level lookup inverts it |
| EnumConversions.LookupThenProject | src/main/java/com/phoosop/reactive/converter/UserEntityToUserCommandConverter.java:20-33 | a wire value that resolves projects back to itself |
| CreateUserRequestToUserCommandConverter.Convert | src/test/java/com/phoosop/reactive/converter/CreateUserRequestToUserCommandConverterTest.java:25-44 | scalar fields copied, type and status resolved, id and level unset; fails exactly on an unknown type or status |
| UserEntityToUserCommandConverter.Convert | src/main/java/com/phoosop/reactive/converter/UserEntityToUserCommandConverter.java:18-33 | id and scalars copied, type, status and level resolved from their stored values; fails exactly on an unknown stored value |
| UserCommandToUserEntityConverter.Convert | src/main/java/com/phoosop/reactive/converter/UserCommandToUserEntityConverter.java:14-26 | scalars copied; each enum stored as its `getValue()` |
| UserCommandToUserEntityConverter.CommandRoundTrip | src/main/java/com/phoosop/reactive/converter/UserCommandToUserEntityConverter.java:14-26 | storing a command and reading the row back gives the same command |
| UserCommandToUserEntityConverter.EntityRoundTrip | src/main/java/com/phoosop/reactive/converter/UserEntityToUserCommandConverter.java:18-33 | a row that reads back without error is stored again unchanged |
| UserCommandToUserResponseConverter.Convert | src/main/java/com/phoosop/reactive/converter/UserCommandToUserResponseConverter.java:15-27 | echoes id, card id, names, date of birth and age; each enum as its `getValue()`, which resolves back to the command's constant |
| UserCommandToUserShortResponseConverter.Convert | src/main/java/com/phoosop/reactive/converter/UserCommandToUserShortResponseConverter.java:13-21 | id, card id, names, and type and status as their `getValue()` |
| UserCommandToUserShortResponseConverter.AgreesWithFullResponse | src/main/java/com/phoosop/reactive/converter/UserCommandToUserShortResponseConverter.java:11-22 | the short response is the full response without level, date of birth and age |
| CustomPage.Map | src/main/java/com/phoosop/reactive/model/CustomPage.java:31-33 | keeps number, size and total; same length; element i is the converter applied to element i |
| CustomPage.MapIdentity | src/main/java/com/phoosop/reactive/model/CustomPage.java:31-33 | mapping with the identity gives an equal page |
| CustomPage.MapCompose | src/main/java/com/phoosop/reactive/model/CustomPage.java:31-33 | mapping twice is mapping once with the composed converter |
| ConversionService.Convert | src/main/java/com/phoosop/reactive/component/UserComponent.java:39 | a converter's result passes through unchanged; its exception reaches the caller as a `ConversionFailedException` whose cause it is |
| UserPersistenceService.Insert | src/main/java/com/phoosop/reactive/service/UserPersistenceService.java:28-30 | a row without an id gets the generated id; a row whose id is in use is refused; otherwise it is appended and the primary key is kept |
| UserPersistenceService.Save | src/main/java/com/phoosop/reactive/service/UserPersistenceService.java:27-34 | the same command comes back with the inserted row's id, and the table gains that command's row |
| UserPersistenceService.FindById | src/main/java/com/phoosop/reactive/service/UserPersistenceService.java:36-41 | empty exactly when no row has the id; anything found carries the id and is the conversion of a stored row; `one()` never fails on a keyed table; the only errors are `one()`'s and the wrapped conversion failure (that a present row is found is `FindByIdFinds`) |
| UserPersistenceService.KeyedMatchesAtMostOne | src/main/java/com/phoosop/reactive/service/UserPersistenceService.java:38-39 | under the primary key an id matches at most one row |
| UserPersistenceService.FindByIdFinds | src/main/java/com/phoosop/reactive/service/UserPersistenceService.java:36-41 | under the primary key, the row holding the id is found as its converted command; if that row does not convert, the lookup fails with `ConversionFailedException` caused by `FAILED_TO_CONVERT_VALUE_TO_ENUM` |
| UserPersistenceService.SaveThenFind | src/main/java/com/phoosop/reactive/service/UserPersistenceService.java:27-41 | a command saved without an id is found again, unchanged, under the generated id |
| UserPersistenceService.Window | src/main/java/com/phoosop/reactive/service/UserPersistenceService.java:46-48 | at most the page size, taken in repository order after the skip |
| UserPersistenceService.ConvertAll | src/main/java/com/phoosop/reactive/service/UserPersistenceService.java:49 | every row converted in order through the conversion service; fails exactly when some row does not convert, with `ConversionFailedException` caused by `FAILED_TO_CONVERT_VALUE_TO_ENUM` |
| UserPersistenceService.FindAllAsWritten | src/main/java/com/phoosop/reactive/service/UserPersistenceService.java:43-57 | content is the converted rows after the as-written skip; `size` is the rows returned, `number` the requested page, `totalElements` the whole table; a row that does not convert fails the page with `ConversionFailedException` |
| UserPersistenceService.Skip | src/main/java/com/phoosop/reactive/service/UserPersistenceService.java:45 | pages 0 and 1 skip nothing; every page from 2 on skips at least two pages' worth of rows |
| UserPersistenceService.FirstPageTwice | src/main/java/com/phoosop/reactive/service/UserPersistenceService.java:45 | pages 0 and 1 both start at the first row |
| UserPersistenceService.MiddleRowsNeverListed | src/main/java/com/phoosop/reactive/service/UserPersistenceService.java:45 | no page starts at row `size`, and rows `size` to `2*size-1` are on no page |
| UserPersistenceService.SecondRowLost | src/main/java/com/phoosop/reactive/service/UserPersistenceService.java:43-57 | with page size 1 over three rows, no page lists the second row |
| UserPersistenceService.IntendedSkip | src/main/java/com/phoosop/reactive/service/UserPersistenceService.java:45 | page `n` of a one-based listing ends at row `n*size` |
| UserPersistenceService.IntendedPagesPartition | src/main/java/com/phoosop/reactive/service/UserPersistenceService.java:45 | with the one-based skip every row is on exactly one page from 1 on |
| UserPersistenceService.FindAll | src/main/java/com/phoosop/reactive/service/UserPersistenceService.java:43-57 | the page with the one-based skip and the same metadata and `ConversionFailedException` guarantees |
| UserPersistenceService.DeleteAsWritten | src/main/java/com/phoosop/reactive/service/UserPersistenceService.java:59-61 | as written, the table keeps its size and the id is present afterwards exactly when it was before |
| UserPersistenceService.DeletedUserStillFound | src/main/java/com/phoosop/reactive/service/UserPersistenceService.java:59-61 | as written, a deleted user is still found |
| UserPersistenceService.Delete | src/main/java/com/phoosop/reactive/service/UserPersistenceService.java:59-61 | after the delete no row has the id |
| UserPersistenceService.DeleteKeepsOthers | src/main/java/com/phoosop/reactive/service/UserPersistenceService.java:59-61 | the delete leaves every other id's rows as they were |
| UserPersistenceService.DeleteKeyed | src/main/java/com/phoosop/reactive/service/UserPersistenceService.java:59-61 | the delete keeps the primary key |
| UserPersistenceService.DeleteThenFind | src/main/java/com/phoosop/reactive/service/UserPersistenceService.java:36-41 | a deleted user is not found |
| UserPersistenceService.Replace | src/main/java/com/phoosop/reactive/service/UserPersistenceService.java:27-34 | the row with the command's id is overwritten in place; the primary key is kept |
| UserPersistenceService.SaveExisting | src/main/java/com/phoosop/reactive/component/UserComponent.java:75 | the save an update needs: the same command comes back, the table keeps its size, and the primary key holds |
| UserPersistenceService.SaveExistingThenFind | src/main/java/com/phoosop/reactive/component/UserComponent.java:75 | an updated user is read back as written, and no other id's rows change |
| UserComponent.CreateUser | src/main/java/com/phoosop/reactive/component/UserComponent.java:38-43 | the response has the generated id, level `LEVEL_1` whatever the converter produced, and the request's fields; one row is added; fails exactly on an unknown type or status, with `ConversionFailedException` caused by `FAILED_TO_CONVERT_VALUE_TO_ENUM` |
| UserComponent.CreateThenGet | src/main/java/com/phoosop/reactive/component/UserComponent.java:38-43 | a created user is read back with the response the creation returned |
| UserComponent.Merge | src/main/java/com/phoosop/reactive/component/UserComponent.java:49-74 | text fields taken only when not blank, status and age only when present; an unknown type or status fails with `FAILED_TO_CONVERT_VALUE_TO_ENUM`; id and level kept |
| UserComponent.MergeKeepsIdLevelIgnoresMobile | src/main/java/com/phoosop/reactive/component/UserComponent.java:49-74 | the merge never changes id or level, and the mobile fields make no difference |
| UserComponent.BlankUpdateIsNoOp | src/main/java/com/phoosop/reactive/component/UserComponent.java:49-74 | an update with every field absent or blank leaves the user unchanged |
| UserComponent.MergeIdempotent | src/main/java/com/phoosop/reactive/component/UserComponent.java:49-74 | applying an update twice is applying it once |
| UserComponent.GetUser | src/main/java/com/phoosop/reactive/component/UserComponent.java:79-86 | `USER_NOT_FOUND` exactly when no row has the id; anything returned is the response of the user `findById` found (that a present user is returned is `GetUserFinds`) |
| UserComponent.GetUserFinds | src/main/java/com/phoosop/reactive/component/UserComponent.java:79-86 | under the primary key, a stored user whose row converts is read as that row's response; one whose row does not convert fails with the wrapped conversion error |
| UserComponent.UpdateUserAsWritten | src/main/java/com/phoosop/reactive/component/UserComponent.java:45-77 | as written, an update never succeeds; a missing id gives `USER_NOT_FOUND` |
| UserComponent.UpdateOfExistingUserRefused | src/main/java/com/phoosop/reactive/component/UserComponent.java:75 | as written, every update of an existing user that reaches the save is refused by the primary key |
| UserComponent.UpdateOfExistingUserSucceeds | src/main/java/com/phoosop/reactive/component/UserComponent.java:45-77 | with the save overwriting in place, every update of a found user that the merge accepts succeeds, overwriting the row and returning the merged user's response |
| UserComponent.UpdateUser | src/main/java/com/phoosop/reactive/component/UserComponent.java:45-77 | `USER_NOT_FOUND` for a missing id; any success is the stored user merged with the request, saved in place, and returned; the errors are the lookup's and the merge's (that a found, mergeable update succeeds is `UpdateOfExistingUserSucceeds`) |
| UserComponent.UpdateThenGet | src/main/java/com/phoosop/reactive/component/UserComponent.java:45-86 | after an update, reading the user gives what the update returned |
| UserComponent.GetUserList | src/main/java/com/phoosop/reactive/component/UserComponent.java:88-91 | the page of the listing with every item as a short response and the page metadata kept |
| UserComponent.DeleteUser | src/main/java/com/phoosop/reactive/component/UserComponent.java:93-95 | the user is gone, nobody else is touched, and the primary key holds |
| BaseController.SuccessEmpty | src/main/java/com/phoosop/reactive/controller/BaseController.java:13-15 | status `SUCCESS` and `data = null` |
| BaseController.SuccessWith | src/main/java/com/phoosop/reactive/controller/BaseController.java:17-19 | the item wrapped unchanged with status `SUCCESS`; an error passes through unchanged |
| BaseController.SuccessEnvelopesAgree | src/main/java/com/phoosop/reactive/controller/BaseController.java:13-19 | both envelopes carry the same `SUCCESS` status and differ only in the data |
| BaseController.Deliver | src/main/java/com/phoosop/reactive/controller/BaseController.java:17-19 | 200 exactly for a successful result; an error reaches the client as the handler renders it |
| UserEndpoints.PatchUser | src/test/java/com/phoosop/reactive/controller/UserControllerTest.java:848-853 | a request that fails validation gets 400 with the violated status and the table is untouched; a valid one gets 200 with the updated user and the new table when the update succeeds, and the handler's reply with the table untouched when it fails |
| UserEndpoints.PatchExistingUserSucceeds | src/main/java/com/phoosop/reactive/controller/UserController.java:33-38 | a valid update of a stored user whose row converts gets 200 with that user, and the table keeps its size |
| UserEndpoints.PatchUnderageRejected | src/test/java/com/phoosop/reactive/controller/UserControllerTest.java:932-965 | an update with age 14 gets 400 `AGE_IS_INVALID` and `data = null` |
| UserEndpoints.PostUser | src/main/java/com/phoosop/reactive/controller/UserController.java:27-31 | a request that fails validation gets 400 with the violated status and the table is untouched; a valid one gets 200 with `SUCCESS` and the created user (generated id, level 1, the request's fields), and the table gains its row |
| UserEndpoints.PostUnderageRejected | src/test/java/com/phoosop/reactive/controller/UserControllerTest.java:177-656 | an otherwise complete create request with age 14 gets 400 `AGE_IS_INVALID`, and nothing is stored |
| UserEndpoints.GetUserEndpoint | src/test/java/com/phoosop/reactive/component/UserComponentTest.java:293-307 | 404 `USER_NOT_FOUND` with `data = null` exactly when no row has the id |
| UserEndpoints.GetUserEndpointFinds | src/main/java/com/phoosop/reactive/controller/UserController.java:40-44 | under the primary key, a stored user whose row converts gets 200 with `SUCCESS` and its response; one whose row does not convert gets 500 `FAILED_TO_CONVERT_VALUE_TO_ENUM` |
| UserEndpoints.ListUsers | src/main/java/com/phoosop/reactive/controller/UserController.java:46-52 | 200 exactly when every listed row converts, with the page of short responses (`totalElements` the whole table, `size` the rows returned); otherwise 500 `FAILED_TO_CONVERT_VALUE_TO_ENUM`; the refusal of a negative page or a size below 1 by `PageRequest.of` is not modelled |
| UserEndpoints.DeleteUserEndpointAsWritten | src/main/java/com/phoosop/reactive/controller/UserController.java:54-58 | as written: 200 with `SUCCESS` and no data, and the user is still there |
| UserEndpoints.DeleteUserEndpoint | src/main/java/com/phoosop/reactive/controller/UserController.java:54-58 | with the delete subscribed: 200 with `SUCCESS` and no data, and no row has the id afterwards |

## Left out

- Reactor scheduling, `R2dbcEntityTemplate` and `UserRepository`: each pipeline is sequential code over a table modelled as a sequence of rows.
- The activity enrichment of `getUser`, the `BoredapiClientService` and the activity converters: network I/O and field copies.
- `generateRSA` and `CryptoUtils`: key generation on a blocking scheduler.
- Logging in the handler and the logging web filter.
- Routing, the controller's default page parameters, and application bootstrap.
- The status catalogue's strings, the enum classes, `DateTimeUtils` and `CreateUserRequest`: their sources are not part of this model. Strings, enum values and the parser are parameters. The create request's constraints are the update request's typed constraints plus `@Required` on each of its nine fields, as its controller tests exercise them.
- The bodies of the MapStruct-generated `convert` methods are not part of this model. An absent enum maps to an absent field; a present one goes through the hand-written lookups and projections.
- Java integer widths: ids, ages and page arithmetic are unbounded integers. The skip is computed in `long` from `int` operands and cannot overflow.
- The database's id generator is a parameter. `Save` and `CreateUser` require the generated id to be unused, as the database guarantees.
- `Constraints.FirstViolation` does not model which violation bean validation reports when there are several. Only that it is one of them is stated.
- UserComponent.GetUser: the response does not include the activity.
- CreateUserRequest.Table: the age bounds 18 and 54 are taken over from the update request. The create tests only pin ages 14 and 99 as rejected and 18 as accepted, so the upper bound 54 is assumed.
- UserEndpoints.ListUsers: `PageRequest.of` refuses a negative page or a size below 1 with an `IllegalArgumentException`, which the handler turns into 500. The model takes `nat` page numbers and does not model the size check.

## Findings

| source | as written | input that shows it | evidently intended | confidence | as-written member | corrected member |
|---|---|---|---|---|---|---|
| src/main/java/com/phoosop/reactive/service/UserPersistenceService.java:45 | the skip is 0 for page 1 and `page * size` for every other page | page size 1 over three rows: pages 0 and 1 list row 0, page 2 lists row 2, and row 1 is on no page; in general rows `size` to `2*size-1` are never listed | one-based pages: page `n` skips `(n-1) * size` rows, so every row is on exactly one page | high, not executed | UserPersistenceService.MiddleRowsNeverListed | UserPersistenceService.IntendedPagesPartition |
| src/main/java/com/phoosop/reactive/component/UserComponent.java:75 | the merged user, which keeps the id it was found under, is saved through `save`, which inserts a new row with that id | any update of an existing user with valid fields: the insert hits the primary key and the client gets 500 | the stored row is overwritten in place | medium, not executed | UserComponent.UpdateOfExistingUserRefused | UserComponent.UpdateOfExistingUserSucceeds |
| src/main/java/com/phoosop/reactive/service/UserPersistenceService.java:59-61 | `deleteById` returns a publisher that nobody subscribes to, so no delete is issued | delete an existing user, then read it: it is still there | the row is removed | high, not executed | UserPersistenceService.DeletedUserStillFound | UserPersistenceService.DeleteThenFind |

The model's listing (`UserComponent.GetUserList`), update (`UserComponent.UpdateUser`) and delete (`UserComponent.DeleteUser`) use the corrected definitions. `UserPersistenceService.FindAllAsWritten`, `UserComponent.UpdateUserAsWritten` and `UserPersistenceService.DeleteAsWritten` keep the code as written. With the corrected update, `UserComponent.UpdateThenGet` also shows that the user is read back as the update returned it.
