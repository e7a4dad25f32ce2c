# Appointment scheduling and cancellation engine of the voll.med clinic API

A Dafny model of the decision core of `AgendaDeConsultas`, the service that
books (`agendar`) and cancels (`cancelar`) appointments (`Consulta`) between
patients (`Paciente`) and practitioners (`Medico`), together with the
appointment entity and the repository queries the service relies on.

Modules. `Tempo` models the part of `java.time.LocalDateTime` the service
uses; the others follow the program's files, except that
`AgendaDeConsultas.java` is split in two: its rules and decision
(`RegrasDeAgendamento`) and the service class with its state (`Agendamento`).

- `Tempo` (tempo.dfy): `LocalDateTime` at minute resolution. An instant is
  the number of minutes since 1970-01-01T00:00; day, hour, minute and day of
  the week are derived with floor division, as `LocalDateTime` does.
  `ComHora(t, h)` is `t.withHour(h).withMinute(0)`.
- `DominioConsulta` (dominio_consulta.dfy): the `Consulta` entity as a class
  whose constructor starts it active with no reason and whose `Cancelar`
  overwrites `ativo` and `motivoCancelamento`; `Registro` is the value of its
  fields, and `Cancelada` the values after a cancellation.
- `ConsultaRepository` (consulta_repository.dfy): the derived queries
  `existsByPacienteIdAndDataHoraBetweenAndAtivoTrue`,
  `existsByMedicoIdAndDataHoraAndAtivoTrue` and `findAllByAtivoTrue` as
  predicates and a filter over the appointment table (id to `Registro`).
- `MedicoRepository` (medico_repository.dfy): `findAllByAtivoTrue` and the
  native query `escolherMedicoAleatorioLivreNaData`, whose `ORDER BY RAND()
  LIMIT 1` becomes a nondeterministic choice from the set of active
  practitioners with no active appointment at that instant.
- `RegrasDeAgendamento` (regras_de_agendamento.dfy): the guards
  (`ValidarHorarioFuncionamento`, `ValidarAntecedenciaMinima`,
  `ValidarPacienteComOutraConsultaNoDia`, `ValidarMedicoOcupado`), the error
  kinds of `ValidacaoException`, and `Rejeicao` / `RejeicaoCancelamento`: the
  error each operation raises for a request against a given store, in the
  order the service checks. It also holds the store invariant `Consistente`
  (every active appointment within opening hours, no practitioner booked
  twice at one instant, no patient booked twice on one day) and the lemmas
  that both operations keep it.
- `Agendamento` (agenda_de_consultas.dfy): the service as a class
  `AgendaDeConsultas` holding the appointment store (`map` from id to
  `Consulta` objects), the id generator, and the read-only patient and
  practitioner repositories. `Agendar` and `Cancelar` are proved against
  `Rejeicao` / `RejeicaoCancelamento` and state the whole new store.

The clock is a parameter (`agora`) of both operations. The random source of
the practitioner query is a nondeterministic choice.

The model keeps the code's behaviour where it is easy to misread:

- The patient-day window uses Spring Data's `Between`, so both ends are
  included (07:00 and 19:00 of the requested day), not an end-exclusive range.
- A Sunday and an hour outside [7, 19) are two different rejections, since
  the code throws two messages; the Sunday one is raised first.
- A named practitioner is checked for existence and activity right after the
  patient, before any time rule; the operating-hours and lead-time rules come
  next, then the patient-day conflict, then the practitioner conflict or the
  automatic choice.
- The appointment keeps the boolean `ativo` and the nullable reason as two
  fields. "Inactive exactly when a reason is present" is proved to hold from
  construction through any sequence of cancellations, not made structural.
- Cancelling does not look at the current status: an already cancelled
  appointment can be cancelled again, and its reason is overwritten.

## Model

| member | source | states |
|---|---|---|
| Tempo.ComHora | src/main/java/med/voll/api/domain/consulta/AgendaDeConsultas.java:117-118 | `withHour(h).withMinute(0)` gives the same day, hour `h` and minute 0 |
| Tempo.JanelaDoDia | src/main/java/med/voll/api/domain/consulta/AgendaDeConsultas.java:116-121 | the instants between that day's 07:00 and 19:00, both included, are exactly those of the same day with hour in [7, 19) plus 19:00 itself |
| DominioConsulta.Consulta.constructor | src/main/java/med/voll/api/domain/consulta/Consulta.java:47-53 | a new appointment holds the given practitioner, patient and time, is active, has no reason and no id |
| DominioConsulta.NovaAtiva | src/main/java/med/voll/api/domain/consulta/Consulta.java:47-53 | the constructed values are active, without reason, and coherent (active iff no reason) |
| DominioConsulta.Consulta.Cancelar | src/main/java/med/voll/api/domain/consulta/Consulta.java:60-63 | sets `ativo` to false and the reason to the given one, whatever the state; id, practitioner, patient and time unchanged |
| DominioConsulta.CancelamentosSucessivos | src/main/java/med/voll/api/domain/consulta/Consulta.java:38-63 | any sequence of cancellations keeps "inactive iff a reason is present", never reactivates, keeps id, practitioner, patient and time, and leaves the last reason |
| DominioConsulta.Consulta.Equals | src/main/java/med/voll/api/domain/consulta/Consulta.java:18 | definition: two appointments are equal when their ids are; its property is in `Agendamento.AgendaDeConsultas.IgualdadePorChave` |
| Agendamento.AgendaDeConsultas.IgualdadePorChave | src/main/java/med/voll/api/domain/consulta/Consulta.java:18 | equality looks at the id only, so two stored appointments are equal exactly when they are stored under the same id |
| ConsultaRepository.ListagemSoDeAtivas | src/main/java/med/voll/api/consulta/ConsultaRepository.java:32-35 | `findAllByAtivoTrue` holds exactly the active rows, with their values unchanged |
| ConsultaRepository.ExistsByPacienteIdAndDataHoraBetweenAndAtivoTrue | src/main/java/med/voll/api/consulta/ConsultaRepository.java:11-19 | definition: some active appointment of the patient lies between the two instants, both included; its properties are in `CanceladasNaoContamParaOPaciente`, `CancelamentoNaoCriaConflitoDoPaciente` and `RegrasDeAgendamento.ConflitoDoPacienteNoDia` |
| ConsultaRepository.ExistsByMedicoIdAndDataHoraAndAtivoTrue | src/main/java/med/voll/api/consulta/ConsultaRepository.java:22-29 | definition: some active appointment of the practitioner is at exactly that instant; its properties are in `CanceladasNaoContamParaOMedico`, `CancelamentoNaoCriaConflitoDoMedico` and `RegrasDeAgendamento.ConflitoDoMedico` |
| ConsultaRepository.FindAllByAtivoTrue | src/main/java/med/voll/api/consulta/ConsultaRepository.java:32-35 | definition: the active rows; its properties are in `ListagemSoDeAtivas`, `ListagemAposInclusao` and `ListagemAposCancelamento` |
| ConsultaRepository.CanceladasNaoContamParaOPaciente | src/main/java/med/voll/api/consulta/ConsultaRepository.java:11-19 | the patient query gives the same answer on the table and on its active rows: cancelled appointments never count |
| ConsultaRepository.CanceladasNaoContamParaOMedico | src/main/java/med/voll/api/consulta/ConsultaRepository.java:22-29 | the practitioner query gives the same answer on the table and on its active rows: cancelled appointments never count |
| ConsultaRepository.CancelamentoNaoCriaConflitoDoPaciente | src/main/java/med/voll/api/consulta/ConsultaRepository.java:19 | cancelling a row can turn the patient query from true to false, never from false to true |
| ConsultaRepository.CancelamentoNaoCriaConflitoDoMedico | src/main/java/med/voll/api/consulta/ConsultaRepository.java:29 | cancelling a row can turn the practitioner query from true to false, never from false to true |
| ConsultaRepository.ListagemAposInclusao | src/main/java/med/voll/api/consulta/ConsultaRepository.java:35 | after a new active appointment is stored, the listing is the old one plus that appointment, once |
| ConsultaRepository.ListagemAposCancelamento | src/main/java/med/voll/api/consulta/ConsultaRepository.java:35 | after a cancellation the listing is the old one without that appointment |
| MedicoRepository.FindAllByAtivoTrue | src/main/java/med/voll/api/medico/MedicoRepository.java:18-19 | definition: the active practitioners; its properties are in `LivresSaoAtivos` |
| MedicoRepository.Livres | src/main/java/med/voll/api/medico/MedicoRepository.java:28-32 | definition: the active practitioners with no active appointment at exactly that instant, the rows the left join keeps; its properties are in `LivresVazio`, `LivresSaoAtivos` and `CanceladaNaoOcupa` |
| MedicoRepository.EscolherMedicoAleatorioLivreNaData | src/main/java/med/voll/api/medico/MedicoRepository.java:28-36 | returns at most one practitioner, active and with no active appointment at exactly that instant; returns none iff every active practitioner is busy then |
| MedicoRepository.LivresVazio | src/main/java/med/voll/api/medico/MedicoRepository.java:21-36 | the eligible set is empty iff every active practitioner has an active appointment at that instant |
| MedicoRepository.LivresSaoAtivos | src/main/java/med/voll/api/medico/MedicoRepository.java:19-31 | `findAllByAtivoTrue` returns only active practitioners, and every eligible practitioner is among them |
| MedicoRepository.CanceladaNaoOcupa | src/main/java/med/voll/api/medico/MedicoRepository.java:30 | a cancelled appointment does not make its practitioner busy: cancelling only adds practitioners to the eligible set |
| RegrasDeAgendamento.ValidarHorarioFuncionamento | src/main/java/med/voll/api/domain/consulta/AgendaDeConsultas.java:90-103 | passes iff the day is not Sunday and the instant lies in [07:00, 19:00) of its day; Sunday gives the Sunday error whatever the hour, any other failure is the hours error |
| RegrasDeAgendamento.ValidarAntecedenciaMinima | src/main/java/med/voll/api/domain/consulta/AgendaDeConsultas.java:105-114 | definition: rejected when the instant is before now plus 30 minutes; its properties are in `LimiteDaAntecedencia` |
| RegrasDeAgendamento.ValidarPacienteComOutraConsultaNoDia | src/main/java/med/voll/api/domain/consulta/AgendaDeConsultas.java:116-124 | definition: rejected when the patient query finds an active appointment between 07:00 and 19:00 of that day; its properties are in `ConflitoDoPacienteNoDia` |
| RegrasDeAgendamento.ValidarMedicoOcupado | src/main/java/med/voll/api/domain/consulta/AgendaDeConsultas.java:126-131 | definition: rejected when the practitioner query finds an active appointment at that instant; its properties are in `ConflitoDoMedico` |
| RegrasDeAgendamento.Rejeicao | src/main/java/med/voll/api/domain/consulta/AgendaDeConsultas.java:25-59 | definition: the error `agendar` throws, in the order of its checks, or none; its properties are in `PacienteVerificadoPrimeiro`, `MedicoVerificadoAntesDoHorario`, `RegrasDeHorario`, `PacienteComConsultaNoDiaAntesDoMedico`, `EscolhaDoMedico`, `RejeicaoIgnoraCanceladas` and `AgendamentoPreservaConsistencia`, and `Agendamento.AgendaDeConsultas.Agendar` is proved against it |
| RegrasDeAgendamento.RejeicaoCancelamento | src/main/java/med/voll/api/domain/consulta/AgendaDeConsultas.java:71-81 | definition: the error `cancelar` throws, or none; its properties are in `RegrasDoCancelamento` and `CenarioCancelamentoTardio`, and `Agendamento.AgendaDeConsultas.Cancelar` is proved against it |
| RegrasDeAgendamento.LimitesDoHorario | src/main/java/med/voll/api/domain/consulta/AgendaDeConsultas.java:95-102 | on Monday to Saturday 07:00 and 18:59 pass, 06:59 and 19:00 fail; on Sunday every minute fails with the Sunday error |
| RegrasDeAgendamento.LimiteDaAntecedencia | src/main/java/med/voll/api/domain/consulta/AgendaDeConsultas.java:105-114 | rejects exactly when the instant is less than 30 minutes after now: 30 minutes passes, 29 fails, and later instants stay accepted |
| RegrasDeAgendamento.ConflitoDoPacienteNoDia | src/main/java/med/voll/api/domain/consulta/AgendaDeConsultas.java:116-124 | rejects iff the patient has an active appointment on the same day with hour in [7, 19) or at 19:00 exactly |
| RegrasDeAgendamento.ConflitoDoMedico | src/main/java/med/voll/api/domain/consulta/AgendaDeConsultas.java:126-131 | rejects iff the practitioner has an active appointment at exactly that instant; one minute before or after does not conflict |
| RegrasDeAgendamento.PacienteVerificadoPrimeiro | src/main/java/med/voll/api/domain/consulta/AgendaDeConsultas.java:29-32 | an absent or inactive patient is rejected with that error whatever else the request holds |
| RegrasDeAgendamento.MedicoVerificadoAntesDoHorario | src/main/java/med/voll/api/domain/consulta/AgendaDeConsultas.java:37-43 | a named practitioner that is absent or inactive is rejected before any time rule |
| RegrasDeAgendamento.RegrasDeHorario | src/main/java/med/voll/api/domain/consulta/AgendaDeConsultas.java:45-47 | with valid patient and practitioner: Sunday, then hours, then lead time decide the error |
| RegrasDeAgendamento.PacienteComConsultaNoDiaAntesDoMedico | src/main/java/med/voll/api/domain/consulta/AgendaDeConsultas.java:45-48 | with valid patient and practitioner and the time rules passing: refused with the patient-day error iff the patient has an active appointment between 07:00 and 19:00 of that day, in particular whenever one lies within operating hours on that day |
| RegrasDeAgendamento.EscolhaDoMedico | src/main/java/med/voll/api/domain/consulta/AgendaDeConsultas.java:50-59 | after the earlier checks pass: a named practitioner is rejected iff busy at that instant; an automatic request is rejected iff no active practitioner is free; otherwise the request is booked |
| RegrasDeAgendamento.MedicoResolvidoLivre | src/main/java/med/voll/api/domain/consulta/AgendaDeConsultas.java:50-59 | the practitioner a booking gets, named or chosen, is present, active and free at that instant |
| RegrasDeAgendamento.RejeicaoIgnoraCanceladas | src/main/java/med/voll/api/domain/consulta/AgendaDeConsultas.java:116-139 | the booking decision is the same on the store and on its active appointments alone |
| RegrasDeAgendamento.AgendamentoPreservaConsistencia | src/main/java/med/voll/api/domain/consulta/AgendaDeConsultas.java:25-66 | a successful booking keeps the store consistent: active appointments in opening hours, no practitioner twice at one instant, no patient twice on one day |
| RegrasDeAgendamento.CancelamentoPreservaConsistencia | src/main/java/med/voll/api/domain/consulta/AgendaDeConsultas.java:71-85 | a cancellation keeps the store consistent |
| RegrasDeAgendamento.RegrasDoCancelamento | src/main/java/med/voll/api/domain/consulta/AgendaDeConsultas.java:71-85 | an unknown id is rejected; an existing one passes iff it is at least 24 hours ahead; the status does not affect the decision |
| RegrasDeAgendamento.CenarioAgendamentoAutomatico | src/main/java/med/voll/api/domain/consulta/AgendaDeConsultas.java:50-66 | active patient 1, no practitioner named, Tuesday 10:00 a day ahead, practitioner 7 the only one and free: booked, and 7 is the only possible choice |
| RegrasDeAgendamento.CenarioCancelamentoTardio | src/main/java/med/voll/api/domain/consulta/AgendaDeConsultas.java:78-81 | an appointment ten hours ahead cannot be cancelled |
| Agendamento.AgendaDeConsultas.Save | src/main/java/med/voll/api/domain/consulta/AgendaDeConsultas.java:61-63 | the first save gives the entity the next id and stores that very entity under it; no stored appointment changes |
| Agendamento.AgendaDeConsultas.EscolherMedicoAleatorio | src/main/java/med/voll/api/domain/consulta/AgendaDeConsultas.java:133-139 | the practitioner returned, if any, is in the eligible set of the current store; none iff that set is empty |
| Agendamento.AgendaDeConsultas.Agendar | src/main/java/med/voll/api/domain/consulta/AgendaDeConsultas.java:25-66 | fails iff `Rejeicao` gives an error, with that error and the store unchanged; on success adds exactly one active appointment without reason under a fresh id, as a newly allocated entity the caller can later cancel, with the patient, the requested time and the named or an eligible practitioner, returns those values, and keeps the store consistent; every appointment already stored keeps its entity, so it can still be cancelled |
| Agendamento.AgendaDeConsultas.Cancelar | src/main/java/med/voll/api/domain/consulta/AgendaDeConsultas.java:71-85 | returns the `RejeicaoCancelamento` error with the store unchanged, or makes that appointment alone inactive with the given reason; keeps the store consistent |
| Agendamento.CenarioAgendarECancelar | src/main/java/med/voll/api/domain/consulta/AgendaDeConsultas.java:25-85 | an automatic booking a day ahead with one free practitioner succeeds with that practitioner, that patient and the requested time, and cancelling it 24 hours ahead succeeds and leaves the active listing empty |
| Agendamento.CenarioCancelarAposOutraReserva | src/main/java/med/voll/api/domain/consulta/AgendaDeConsultas.java:25-85 | two bookings of the same practitioner on different days both succeed under different ids, and the first can still be cancelled afterwards, leaving only the second in the active listing |

## Left out

- HTTP routing, status codes, transaction boundaries and the request and response records (`ConsultaController`, the `Dados*` records) are not modelled; the request fields are the parameters of `Agendar` and `Cancelar`, and the detail record is `DadosDetalhamentoConsulta`.
- ConsultaRepository.FindAllByAtivoTrue: ordering of the appointment listing by time and paging by 10 are not modelled; it returns the map of active rows.
- MedicoRepository.FindAllByAtivoTrue: the `Pageable` argument and the returned `Page` are not modelled; it returns the set of ids of active practitioners.
- Bean Validation on the requests (`@NotNull`, `@Future`) runs in the framework and is not modelled; a null cancellation reason is not modelled (`DadosCancelamentoConsulta` is not part of this model).
- The clock: `LocalDateTime.now()` becomes the parameter `agora`.
- Seconds and nanoseconds: instants have minute resolution. With seconds, `withHour(7).withMinute(0)` keeps the seconds of the request, so a request at 10:00:30 searches from 07:00:30 and would miss an appointment at 07:00:00 that day; this model cannot show that.
- The calendar range of `LocalDateTime` (years -999999999 to 999999999) is not modelled; instants are unbounded integers.
- MedicoRepository.EscolherMedicoAleatorioLivreNaData: `ORDER BY RAND()` is modelled as an arbitrary choice among the eligible practitioners; that the choice is uniformly random is not modelled.
- Concurrency: the race between the conflict checks and the save under concurrent requests is outside a sequential model.
- Persistence: id generation is a counter in the store; lazy loading and the `getReferenceById` proxy are not modelled. The service imports its repositories from the `domain.*` packages; those files are not part of this model, and their queries are taken to be the ones declared in `consulta/ConsultaRepository.java` and `medico/MedicoRepository.java`, which have the same names and signatures.
- Patients and practitioners are reduced to their `ativo` flag; names, addresses and account management (`DadosAtualizacaoMedico`) are not modelled.
- The older `consulta/Consulta.java` entity is a duplicate of the domain entity without `cancelar` and is not modelled separately.
- The `MotivoCancelamento` enum is not part of this model; a reason is the name of its constant.
