# Request dispatcher: job buffer and scheduler, modelled in Dafny

This project models the sequential core of a small multi-threaded static-file
web server, all of it in `src/request.c`:

- the bounded buffer of admitted requests, shared by the accepting thread and a
  pool of worker threads;
- `pick_request`, which selects and unlinks the next job under one of three
  policies: FIFO (`scheduling_algo` 0), shortest-file-first with aging (1) or
  random (2);
- the two helpers that turn a URI into a file name (`request_parse_uri`) and a
  file name into a MIME type (`request_get_filetype`).

Layout:

- `jobs.dfy`, module `Jobs`: the `Job` record, which is a `request_node` without
  its `next` pointer. It also holds `Option` and the unlinking of one list
  position.
- `scheduler.dfy`, module `Scheduler`: `pick_request`. The linked list is a
  `seq<Job>` in list order.
  - `SelectIndex` returns the position unlinked.
  - `PickRequest` returns the node and the remaining list.
  - The SFF scan is `SffScan`. It is characterised against an independent
    reference, `IsEarliestSmallest`.
- `buffer.dfy`, module `Buffer`: the critical sections with the locks removed.
  - `Enqueue` and `Submit` model the producer side of `request_handle`.
  - `Dequeue` models the worker step of `thread_request_serve_static`.
  - The state holds the job list, `req_count`, `buffer_max_size` and the value
    of the semaphore `req_sem`. The invariant `Valid` ties these together.
- `uri.dfy`, module `Uri`: `request_parse_uri` and `request_get_filetype`, with
  `strstr` and `index` as `Find` / `Contains` and `IndexOf`.

Parameters that stand in for the environment:

- The clock reading `time(NULL)` inside `pick_request` is the parameter `now`.
- The value of `rand()` is the parameter `draw`, a natural number because
  `rand()` never returns a negative value. C's `%` therefore agrees with Dafny's
  `%` on it.
- The stat-derived file size and the admission timestamp are fields of the
  `Job` supplied by the caller.

An aged candidate can still be replaced. Any later job whose file is strictly
smaller than the current candidate's wins (`src/request.c:73-77`). So an aged
size-1000 head followed by a fresh size-500 job yields the size-500 job.
`Scheduler.SffFreshSmallerJobOverridesAgedHead` states this.

## Model

| member | source | states |
|---|---|---|
| Jobs.RemoveAt | src/request.c:81-88 | unlinking position i leaves the list with exactly that position deleted: earlier jobs keep their places, later jobs shift down by one, and the multiset of jobs loses exactly that one job |
| Scheduler.SffScan | src/request.c:71-80 | the scan's final candidate is a position of the list, and it is either the starting candidate or a node visited by the scan |
| Scheduler.SffIndex | src/request.c:66-80 | on a non-empty list the SFF scan from the head always ends on a position of the list |
| Scheduler.SffScanPassesAged | src/request.c:73-77 | visiting an aged job makes it the candidate whatever came before, so the outcome is that of a scan restarted just after it |
| Scheduler.SffScanFindsSmallest | src/request.c:67-80 | over a stretch with no aged job, the strict-smaller replacement rule ends on the earliest job of smallest file size |
| Scheduler.SffPicksEarliestSmallestFromLastAged | src/request.c:64-80 | SFF with aging picks exactly the earliest smallest-file job at or after the last aged job, or at or after the head when none is aged |
| Scheduler.SffWithoutAgingPicksEarliestSmallest | src/request.c:67-77 | when no job has waited at least 10, the pick has a minimal file size and every earlier job is strictly larger |
| Scheduler.SffPicksAtOrAfterEveryAged | src/request.c:71-77 | the SFF pick is never before any aged job |
| Scheduler.SffPicksAgedTail | src/request.c:71-77 | an aged job at the tail is always the one picked |
| Scheduler.SffSmallerLaterJobWins | src/request.c:73-77 | with two fresh jobs of sizes 1000 then 1, the size-1 job is picked |
| Scheduler.SffFreshSmallerJobOverridesAgedHead | src/request.c:73-77 | with an aged size-1000 head followed by a fresh size-500 job, the fresh smaller job is picked |
| Scheduler.SelectIndex | src/request.c:53-115 | a position is selected exactly when the list is non-empty and the policy code is 0, 1 or 2, and it is always within the list; SFF and random need a non-empty list |
| Scheduler.PickRequest | src/request.c:53-115 | a NULL pick happens exactly on an empty list or an unknown policy and leaves the list unchanged; otherwise the returned job is the selected one and the remaining list is the original with that one position deleted, order kept |
| Scheduler.FifoTakesHead | src/request.c:57-63 | FIFO on a non-empty list returns the head and leaves the tail in order; on an empty list it returns nothing and the list stays empty |
| Scheduler.RandomRemovesDrawnPosition | src/request.c:90-111 | the random policy with draw r on n > 0 jobs removes exactly the job at position r mod n, keeping the others in order |
| Scheduler.SffRemovesCharacterisedJob | src/request.c:64-89 | the SFF policy removes the earliest smallest job at or after the last aged job and keeps the others in order |
| Scheduler.FifoServesInListOrder | src/request.c:57-63 | repeated FIFO picks serve the jobs in exactly list order |
| Buffer.Init | src/request.c:42-44 | for any configured capacity, the start-up buffer has an empty list, count 0, exactly that capacity and a semaphore at 0 (`sem_init` at line 249). It satisfies the invariant exactly when the capacity is not negative |
| Buffer.Enqueue | src/request.c:325-337 | the enqueue proceeds exactly when count < capacity, appends the job at the tail and increments the count, and preserves count == number of jobs <= capacity |
| Buffer.Submit | src/request.c:325-339 | the producer step blocks exactly on a full buffer; otherwise it appends at the tail, increments the count, keeps the capacity, posts one token, and preserves the invariant |
| Buffer.Dequeue | src/request.c:226-233 | the worker step consumes one token and decrements the count. It serves exactly the job `pick_request` selects and leaves exactly the list `pick_request` leaves, so FIFO serves the head and every policy keeps the other jobs in order. With a valid buffer and a known policy it removes exactly one job and preserves the invariant; a NULL pick leaves the list unchanged |
| Buffer.UnknownPolicyDesynchronisesCount | src/request.c:229-231 | with a policy code outside 0..2 the pick returns NULL but the count still drops, breaking count == number of jobs |
| Buffer.SubmitAllAppends | src/request.c:325-339 | while there is room, successive submissions append the jobs at the tail in submission order, one token each, keeping the invariant |
| Buffer.FullBufferBlocksNextSubmit | src/request.c:326-327 | after capacity submissions into an empty buffer, all accepted in order, the next submission blocks |
| Buffer.DequeueUnblocksSubmit | src/request.c:229-232 | after one worker step on a valid buffer there is room, so a waiting producer can proceed |
| Buffer.SubmitKeepsSubmissionOrder | src/request.c:329-336 | a producer step adds the new job at the end of both the queue and the submission history, so served jobs followed by queued jobs remain the jobs submitted, in order |
| Buffer.FifoDequeueServesHead | src/request.c:229-231 | a FIFO worker step on a valid buffer serves the head job and leaves the tail, in order |
| Buffer.FifoDequeueKeepsSubmissionOrder | src/request.c:229-231 | under FIFO, a worker step, interleaved with any producer steps, serves the oldest job not yet served and keeps served-then-queued equal to the submission history |
| Buffer.FifoServesInSubmissionOrder | src/request.c:329-336 | under FIFO, jobs submitted into an empty buffer are served in exactly their submission order |
| Uri.Contains | src/request.c:162 | the substring test holds exactly when the needle occurs at some position of the string |
| Uri.IndexOf | src/request.c:171 | the character search returns the first position holding the character, or nothing exactly when the character is absent |
| Uri.ParseUri | src/request.c:160-181 | a URI is static exactly when it has no "cgi". Static: empty CGI arguments and file "." + uri, plus "index.html" after a trailing '/'. Dynamic: the file has no '?', and uri is the file without its leading "." followed by "?" and the CGI arguments, or the CGI arguments are empty when uri has no '?' |
| Uri.FileType | src/request.c:183-192 | the type is text/html if ".html" occurs in the name, else image/gif if ".gif" occurs, else image/jpeg if ".jpg" occurs, else text/plain |
| Uri.DirectoryUriServesHtml | src/request.c:166-167 | a static URI ending in '/' is always served with type text/html |

## Left out

- Locking and waiting: the mutex, the `req_not_full` condition variable and the
  semaphore's blocking (`src/request.c:47-49`). Each critical section is one
  function.
  - A producer that would wait is the `None` result of `Enqueue` / `Submit`.
  - A worker's `sem_wait` is the precondition `pending > 0` of `Dequeue`.
  - Interleavings between threads are not modelled.
- Worker-thread creation and detachment and `srand` in `init_request_system`
  (`src/request.c:247-264`). Also the infinite worker loop of
  `thread_request_serve_static` (`src/request.c:221-243`) beyond one iteration.
  Starting threads and repeating the worker step forever add no behaviour
  beyond the single step `Dequeue` models.
- Socket and file I/O: `request_error`, `request_read_headers`,
  `request_serve_static`, `readline_or_die`, `write_or_die`, `mmap_or_die`,
  `open_or_die`, `close_or_die` and `stat`. These are external effects.
- The admission checks of `request_handle`: the method check, `stat`, the
  regular and readable checks, the ".." check, `malloc`, the `sscanf` of the
  request line and the construction of the node. They depend on the file system
  and the socket. `Job` values are supplied whole to `Enqueue` / `Submit`.
- `MAXBUF`: the fixed 8192-byte buffers and the overflow behaviour of
  `strcpy`/`sprintf`/`strncpy`. Strings are unbounded `string`s.
- The dynamic branch of `request_parse_uri` also writes `'\0'` over the `'?'`
  in the caller's URI. The model returns only the two outputs. The caller uses
  the URI again only on the static path.
- `time_t` arithmetic: `now - arrival` is unbounded integer subtraction. The
  64-bit overflow of extreme timestamps is not modelled.
- The uniformity of `rand() % count`: the draw is a parameter, so its
  distribution and modulo bias are outside the model.
- Scheduler.SffIndex: its own contract only bounds the result. The exact
  characterisation of the pick is the lemma
  `Scheduler.SffPicksEarliestSmallestFromLastAged`.
